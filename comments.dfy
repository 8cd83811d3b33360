/** The comment records of the comment server and the pure parts of its four
    handlers: validating a posted comment, filtering by media title and
    filtering out an id. */
module Comments {
  import opened Text
  import opened Filters

  datatype Option<T> = None | Some(value: T)

  /** A stored comment. The id and the timestamp are opaque strings supplied
      by the caller (the server derives them from the clock). */
  datatype Comment = Comment(
    id: string,
    mediaTitle: string,
    author: string,
    text: string,
    timestamp: string)

  /** The two client errors of the POST handler (both answered with 400). */
  datatype AddError = MissingFields | TooLong

  datatype Result<T> = Ok(value: T) | Err(error: AddError)

  const MaxAuthorLength := 50
  const MaxTextLength := 500

  /** A request-body field counts as given when it is present and not the
      empty string (JavaScript truthiness of a string). */
  predicate Given(field: Option<string>) {
    field.Some? && field.value != []
  }

  /** What the POST handler guarantees of every comment it stores: its three
      text fields are trimmed and the author and text are within the limits. */
  predicate WellFormed(c: Comment) {
    Trim(c.mediaTitle) == c.mediaTitle &&
    Trim(c.author) == c.author &&
    Trim(c.text) == c.text &&
    |c.author| <= MaxAuthorLength &&
    |c.text| <= MaxTextLength
  }

  /** The outcome of posting a comment: a missing or empty field is refused
      first, then an untrimmed author over 50 or text over 500 characters;
      otherwise the new record holds the trimmed fields, is well formed, and
      carries the supplied id and timestamp. */
  function PostComment(mediaTitle: Option<string>, author: Option<string>, text: Option<string>,
                       id: string, timestamp: string): (r: Result<Comment>)
    ensures r == Err(MissingFields) <==> !(Given(mediaTitle) && Given(author) && Given(text))
    ensures r == Err(TooLong) <==>
      Given(mediaTitle) && Given(author) && Given(text) &&
      (|author.value| > MaxAuthorLength || |text.value| > MaxTextLength)
    ensures r.Ok? ==>
      WellFormed(r.value) && r.value.id == id && r.value.timestamp == timestamp &&
      r.value.mediaTitle == Trim(mediaTitle.value) &&
      r.value.author == Trim(author.value) &&
      r.value.text == Trim(text.value)
  {
    if !Given(mediaTitle) || !Given(author) || !Given(text) then
      Err(MissingFields)
    else if |author.value| > MaxAuthorLength || |text.value| > MaxTextLength then
      Err(TooLong)
    else
      TrimIdempotent(mediaTitle.value);
      TrimIdempotent(author.value);
      TrimIdempotent(text.value);
      Ok(Comment(id, Trim(mediaTitle.value), Trim(author.value), Trim(text.value), timestamp))
  }

  /** The test of the title route's filter: strict equality of the title. */
  function TitleIs(title: string): Comment -> bool {
    (c: Comment) => c.mediaTitle == title
  }

  /** The test of the delete route's filter: strict inequality of the id. */
  function IdIsNot(id: string): Comment -> bool {
    (c: Comment) => c.id != id
  }

  /** The comments whose media title is exactly title, in stored order. */
  function WithTitle(comments: seq<Comment>, title: string): (r: seq<Comment>)
    ensures forall c :: c in r <==> c in comments && c.mediaTitle == title
    ensures forall c :: multiset(r)[c] == if c.mediaTitle == title then multiset(comments)[c] else 0
    ensures IsSubsequence(r, comments)
  {
    FilterCounts(comments, TitleIs(title));
    Filter(comments, TitleIs(title))
  }

  /** The comments whose id is not id, in stored order. */
  function WithoutId(comments: seq<Comment>, id: string): (r: seq<Comment>)
    ensures forall c :: c in r <==> c in comments && c.id != id
    ensures forall c :: multiset(r)[c] == if c.id != id then multiset(comments)[c] else 0
    ensures IsSubsequence(r, comments)
  {
    FilterCounts(comments, IdIsNot(id));
    Filter(comments, IdIsNot(id))
  }

  predicate HasId(comments: seq<Comment>, id: string) {
    exists i :: 0 <= i < |comments| && comments[i].id == id
  }

  /** A whitespace-only author passes validation (only emptiness is checked)
      and is stored as the empty string. */
  lemma WhitespaceAuthorStoredEmpty(mediaTitle: Option<string>, author: string, text: Option<string>,
                                    id: string, timestamp: string)
    requires Given(mediaTitle) && Given(text) && |text.value| <= MaxTextLength
    requires author != [] && AllWhitespace(author) && |author| <= MaxAuthorLength
    ensures PostComment(mediaTitle, Some(author), text, id, timestamp) ==
      Ok(Comment(id, Trim(mediaTitle.value), "", Trim(text.value), timestamp))
  {
  }

  /** A whitespace-only text passes validation and is stored as the empty
      string. */
  lemma WhitespaceTextStoredEmpty(mediaTitle: Option<string>, author: Option<string>, text: string,
                                  id: string, timestamp: string)
    requires Given(mediaTitle) && Given(author) && |author.value| <= MaxAuthorLength
    requires text != [] && AllWhitespace(text) && |text| <= MaxTextLength
    ensures PostComment(mediaTitle, author, Some(text), id, timestamp) ==
      Ok(Comment(id, Trim(mediaTitle.value), Trim(author.value), "", timestamp))
  {
  }

  /** Appending a comment adds it to the view of its own (trimmed) title and
      to no other view. */
  lemma TitleAfterAppend(comments: seq<Comment>, c: Comment, title: string)
    ensures WithTitle(comments + [c], title) ==
      WithTitle(comments, title) + (if c.mediaTitle == title then [c] else [])
  {
    FilterAppend(comments, [c], TitleIs(title));
  }

  /** Removing an id twice is the same as removing it once. */
  lemma DeleteIdempotent(comments: seq<Comment>, id: string)
    ensures WithoutId(WithoutId(comments, id), id) == WithoutId(comments, id)
  {
    FilterIdempotent(comments, IdIsNot(id));
  }

  /** Removing an id leaves the list as it was exactly when no comment has
      that id. */
  lemma DeleteUnchangedIffAbsent(comments: seq<Comment>, id: string)
    ensures WithoutId(comments, id) == comments <==> !HasId(comments, id)
  {
    FilterKeepsAll(comments, IdIsNot(id));
  }

  /** Removing the id of a just-appended comment undoes the append when no
      earlier comment shared that id. */
  lemma DeleteUndoesAppend(comments: seq<Comment>, c: Comment)
    requires !HasId(comments, c.id)
    ensures WithoutId(comments + [c], c.id) == comments
  {
    FilterAppend(comments, [c], IdIsNot(c.id));
    DeleteUnchangedIffAbsent(comments, c.id);
  }

  /** Deleting an id and viewing a title commute: the title view after a
      delete is the old title view without that id. */
  lemma TitleAfterDelete(comments: seq<Comment>, id: string, title: string)
    ensures WithTitle(WithoutId(comments, id), title) == WithoutId(WithTitle(comments, title), id)
  {
    FilterCommutes(comments, IdIsNot(id), TitleIs(title));
  }

  /** Every comment of the list is well formed. */
  predicate AllWellFormed(comments: seq<Comment>) {
    forall i :: 0 <= i < |comments| ==> WellFormed(comments[i])
  }

  /** Appending a well-formed comment keeps the list well formed. */
  lemma AppendKeepsWellFormed(comments: seq<Comment>, c: Comment)
    requires AllWellFormed(comments) && WellFormed(c)
    ensures AllWellFormed(comments + [c])
  {
    forall i | 0 <= i < |comments| + 1 ensures WellFormed((comments + [c])[i]) {
      if i < |comments| {
        assert (comments + [c])[i] == comments[i];
      }
    }
  }

  /** Every comment left after a delete is well formed when every comment
      was well formed before it. */
  lemma DeleteKeepsWellFormed(comments: seq<Comment>, id: string)
    requires AllWellFormed(comments)
    ensures AllWellFormed(WithoutId(comments, id))
  {
    var r := WithoutId(comments, id);
    forall i | 0 <= i < |r| ensures WellFormed(r[i]) {
      assert r[i] in r;
      var j :| 0 <= j < |comments| && comments[j] == r[i];
    }
  }
}
