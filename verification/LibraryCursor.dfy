/**
 The opaque cursors of the library listing: a sort key and a work id joined by a NUL character. The base64url
 wrapping of section 5 of RFC 4648 is taken as a perfect round trip, so a cursor is its payload.
 */
module LibraryCursor {
  import opened Prelude

  const NUL: char := '\0'

  function Split(s: string): (parts: seq<string>)
    ensures |parts| > 0
  {
    if s == [] then [""]
    else if s[0] == NUL then [""] + Split(s[1..])
    else var rest := Split(s[1..]); [[s[0]] + rest[0]] + rest[1..]
  }

  function Join(parts: seq<string>): string
    requires |parts| > 0
  {
    if |parts| == 1 then parts[0] else parts[0] + [NUL] + Join(parts[1..])
  }

  lemma {:induction false} JoinSplit(s: string)
    ensures Join(Split(s)) == s
  {
    if s != [] {
      JoinSplit(s[1..]);
      var rest := Split(s[1..]);
      if s[0] == NUL {
        assert Split(s)[1..] == rest;
      } else if |rest| > 1 {
        assert Split(s)[1..] == rest[1..];
      }
    }
  }

  lemma {:induction false} SplitAppend(a: string, b: string)
    ensures Split(a + [NUL] + b) == Split(a) + Split(b)
  {
    var s := a + [NUL] + b;
    if a == [] {
      assert s[1..] == b;
    } else {
      assert s[1..] == a[1..] + [NUL] + b;
      SplitAppend(a[1..], b);
    }
  }

  lemma {:induction false} SplitClean(s: string)
    ensures |Split(s)| == 1 <==> NUL !in s
    ensures NUL !in s ==> Split(s) == [s]
  {
    if s != [] {
      SplitClean(s[1..]);
      assert s == [s[0]] + s[1..];
    }
  }

  // ----- titles -----

  function EncodeTitle(title: string, id: string): string { title + [NUL] + id }

  function DecodeTitle(cursor: string): Result<(string, string)> {
    if cursor == "" then Err(InvalidInput)
    else
      var parts := Split(cursor);
      if |parts| != 2 || parts[1] == "" then Err(InvalidInput) else Ok((parts[0], parts[1]))
  }

  /** Exactly the titles and ids that survive the round trip; any other pair is refused, never misread. */
  lemma TitleRoundTrip(title: string, id: string)
    ensures DecodeTitle(EncodeTitle(title, id)) == Ok((title, id)) <==> NUL !in title && NUL !in id && id != ""
    ensures DecodeTitle(EncodeTitle(title, id)).Ok? ==> DecodeTitle(EncodeTitle(title, id)).value == (title, id)
  {
    SplitAppend(title, id);
    SplitClean(title);
    SplitClean(id);
    assert EncodeTitle(title, id) != "";
  }

  /** An accepted cursor is the encoding of what it decodes to, so no two cursors decode alike. */
  lemma TitleCursorCanonical(cursor: string)
    requires DecodeTitle(cursor).Ok?
    ensures EncodeTitle(DecodeTitle(cursor).value.0, DecodeTitle(cursor).value.1) == cursor
  {
    JoinSplit(cursor);
    assert Join(Split(cursor)[1..]) == Split(cursor)[1];
  }

  // ----- added-at times -----

  /** How times are written and read back. */
  datatype TimeText = TimeText(format: int -> string, parse: string -> Option<int>)
  {
    /** A time's text is not empty, holds no NUL and reads back as the same time. */
    ghost predicate Faithful() {
      forall t :: parse(format(t)) == Some(t) && format(t) != "" && NUL !in format(t)
    }
  }

  function EncodeAddedAt(text: TimeText, at: int, id: string): string { text.format(at) + [NUL] + id }

  function DecodeAddedAt(text: TimeText, cursor: string): Result<(int, string)> {
    if cursor == "" then Err(InvalidInput)
    else
      var parts := Split(cursor);
      if |parts| != 2 || parts[0] == "" || parts[1] == "" then Err(InvalidInput)
      else
        var t := text.parse(parts[0]);
        if t.None? then Err(InvalidInput) else Ok((t.value, parts[1]))
  }

  lemma AddedAtRoundTrip(text: TimeText, at: int, id: string)
    requires text.Faithful()
    ensures DecodeAddedAt(text, EncodeAddedAt(text, at, id)) == Ok((at, id)) <==> NUL !in id && id != ""
    ensures DecodeAddedAt(text, EncodeAddedAt(text, at, id)).Ok?
            ==> DecodeAddedAt(text, EncodeAddedAt(text, at, id)).value == (at, id)
  {
    SplitAppend(text.format(at), id);
    SplitClean(text.format(at));
    SplitClean(id);
    assert EncodeAddedAt(text, at, id) != "";
  }

  // ----- validated text -----

  predicate Control(c: char) { c < ' ' || '\U{7f}' <= c <= '\U{9f}' }

  /** Free-form text must hold something besides white space, fit its bound and have no control character. */
  function ValidateBoundedText(s: string, maxLen: nat): Result<()> {
    if forall i :: 0 <= i < |s| ==> Space(s[i]) then Err(InvalidInput)
    else if |s| > maxLen then Err(InvalidInput)
    else if exists i :: 0 <= i < |s| && Control(s[i]) then Err(InvalidInput)
    else Ok(())
  }

  /** Validation accepts exactly the texts with something to read, in bounds, in which every character is printable. */
  lemma ValidationExactly(s: string, maxLen: nat)
    ensures ValidateBoundedText(s, maxLen) in {Ok(()), Err(InvalidInput)}
    ensures ValidateBoundedText(s, maxLen).Ok? <==>
              && |s| <= maxLen && (exists i :: 0 <= i < |s| && !Space(s[i]))
              && forall i :: 0 <= i < |s| ==> s[i] >= ' ' && !('\U{7f}' <= s[i] <= '\U{9f}')
  {
    if i :| 0 <= i < |s| && (s[i] < ' ' || '\U{7f}' <= s[i] <= '\U{9f}') { assert Control(s[i]); }
  }

  /** So the cursor of a validated title always comes back as that title. */
  lemma ValidatedTitleRoundTrips(title: string, maxLen: nat, id: string)
    requires ValidateBoundedText(title, maxLen).Ok? && NUL !in id && id != ""
    ensures DecodeTitle(EncodeTitle(title, id)) == Ok((title, id))
  {
    assert NUL !in title by {
      if NUL in title {
        var i :| 0 <= i < |title| && title[i] == NUL;
        assert Control(title[i]);
      }
    }
    TitleRoundTrip(title, id);
  }
}
