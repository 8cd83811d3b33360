/** The comment server's store: the list kept in comments.json, held here as
    a sequence field that the add and delete handlers overwrite. */
module CommentServer {
  import opened Text
  import opened Filters
  import opened Comments

  class CommentStore {
    /** The stored comments, in the order they were added. */
    var comments: seq<Comment>

    /** Every stored comment is one the add handler could have produced. */
    ghost predicate Valid()
      reads this
    {
      AllWellFormed(comments)
    }

    /** A store whose file did not exist yet starts as the empty list. */
    constructor ()
      ensures comments == [] && Valid()
    {
      comments := [];
    }

    /** GET /api/comments: every stored comment, in stored order. Reading
        the list changes nothing. */
    function All(): (r: seq<Comment>)
      reads this
      ensures |r| == |comments| && forall i :: 0 <= i < |r| ==> r[i] == comments[i]
    {
      comments
    }

    /** GET /api/comments/:mediaTitle: exactly the stored comments whose
        title equals the query, every one of them, in stored order. */
    function ByTitle(title: string): (r: seq<Comment>)
      reads this
      ensures forall c :: c in r <==> c in comments && c.mediaTitle == title
      ensures forall c :: multiset(r)[c] == if c.mediaTitle == title then multiset(comments)[c] else 0
      ensures IsSubsequence(r, comments)
    {
      WithTitle(comments, title)
    }

    /** POST /api/comments. A refused request leaves the list as it was; an
        accepted one appends exactly the new record, whose fields are the
        trimmed inputs, and changes nothing before it. */
    method AddComment(mediaTitle: Option<string>, author: Option<string>, text: Option<string>,
                      id: string, timestamp: string) returns (r: Result<Comment>)
      modifies this
      ensures r == PostComment(mediaTitle, author, text, id, timestamp)
      ensures r.Err? ==> comments == old(comments)
      ensures r.Ok? ==> comments == old(comments) + [r.value]
      ensures old(Valid()) ==> Valid()
    {
      r := PostComment(mediaTitle, author, text, id, timestamp);
      if r.Ok? {
        if Valid() {
          AppendKeepsWellFormed(comments, r.value);
        }
        comments := comments + [r.value];
      }
    }

    /** DELETE /api/comments/:id. Every comment with that id is removed, the
        rest keep their order, and the request succeeds whether or not
        anything matched. */
    method DeleteById(id: string) returns (success: bool)
      modifies this
      ensures success
      ensures comments == WithoutId(old(comments), id)
      ensures old(Valid()) ==> Valid()
    {
      if Valid() {
        DeleteKeepsWellFormed(comments, id);
      }
      comments := WithoutId(comments, id);
      success := true;
    }
  }
}
