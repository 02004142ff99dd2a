/** The annotation extractor: a news entry carries translator's remarks of
    the form `（翻评：…）` or `(翻評：…)`; they are cut out of the entry and
    returned, stripped, in the order they appear. The pattern is scanned left
    to right exactly as a regular-expression search does: at each position
    either an annotation starts there, and is removed whole, or the character
    is kept. */
module Comment {
  import opened Wrappers

  const TRANSLATION_MARK := '\U{7FFB}'  // 翻
  const COLON := '\U{FF1A}'             // full-width colon

  /** `[（(]`: a full-width or ASCII opening parenthesis. */
  predicate IsOpener(c: char)
  {
    c == '\U{FF08}' || c == '('
  }

  /** `[）)]`: a full-width or ASCII closing parenthesis. */
  predicate IsCloser(c: char)
  {
    c == '\U{FF09}' || c == ')'
  }

  /** `[評评]`: the traditional or simplified form of "review". */
  predicate IsReview(c: char)
  {
    c == '\U{8A55}' || c == '\U{8BC4}'
  }

  /** The characters `str.strip()` removes: those Python calls whitespace. */
  predicate IsWhitespace(c: char)
  {
    || c == ' ' || c == '\t' || c == '\n' || c == '\r' || c == '\U{000B}' || c == '\U{000C}'
    || ('\U{001C}' <= c <= '\U{001F}') || c == '\U{0085}' || c == '\U{00A0}' || c == '\U{1680}'
    || ('\U{2000}' <= c <= '\U{200A}') || c == '\U{2028}' || c == '\U{2029}' || c == '\U{202F}'
    || c == '\U{205F}' || c == '\U{3000}'
  }

  /** The position of the first character at or after `i` that is not
      whitespace (the length when there is none). */
  function SkipLeading(s: string, i: nat): (a: nat)
    requires i <= |s|
    ensures i <= a <= |s|
    ensures forall k :: i <= k < a ==> IsWhitespace(s[k])
    ensures a == |s| || !IsWhitespace(s[a])
    decreases |s| - i
  {
    if i < |s| && IsWhitespace(s[i]) then SkipLeading(s, i + 1) else i
  }

  /** Scanning back from `j` but not past `a`: the end of the last character
      that is not whitespace (`a` when there is none). */
  function SkipTrailing(s: string, a: nat, j: nat): (b: nat)
    requires a <= j <= |s|
    ensures a <= b <= j
    ensures forall k :: b <= k < j ==> IsWhitespace(s[k])
    ensures b == a || !IsWhitespace(s[b - 1])
  {
    if j > a && IsWhitespace(s[j - 1]) then SkipTrailing(s, a, j - 1) else j
  }

  /** `str.strip()`: leading whitespace skipped from the left, then trailing
      whitespace from the right, never crossing the left end. */
  function Strip(s: string): (r: string)
    ensures |r| <= |s|
    ensures r == [] || (!IsWhitespace(r[0]) && !IsWhitespace(r[|r| - 1]))
  {
    var a := SkipLeading(s, 0);
    s[a..SkipTrailing(s, a, |s|)]
  }

  /** `r` is what stripping `s` keeps: the infix of `s` at `start`, with no
      whitespace at either end, everything dropped before and after it being
      whitespace. */
  predicate IsStripOf(s: string, r: string, start: nat)
  {
    && start + |r| <= |s|
    && (forall k :: 0 <= k < |r| ==> r[k] == s[start + k])
    && (forall k :: 0 <= k < start ==> IsWhitespace(s[k]))
    && (forall k :: start + |r| <= k < |s| ==> IsWhitespace(s[k]))
    && (r == [] || (!IsWhitespace(r[0]) && !IsWhitespace(r[|r| - 1])))
  }

  /** `str.strip()` keeps the infix that starts after the leading whitespace
      and drops only whitespace. */
  lemma StripInfix(s: string)
    ensures IsStripOf(s, Strip(s), SkipLeading(s, 0))
  {
  }

  /** Stripping twice is stripping once. */
  lemma StripIdempotent(s: string)
    ensures Strip(Strip(s)) == Strip(s)
  {
    var r := Strip(s);
    if r != [] {
      assert SkipLeading(r, 0) == 0;
      assert SkipTrailing(r, 0, |r|) == |r|;
      assert r[0..|r|] == r;
    }
  }

  /** A piece of an entry as the scan sees it: a kept character, or one whole
      annotation `opener 翻 review ： body closer`. */
  datatype Piece = Text(c: char) | Note(opener: char, review: char, body: string, closer: char)

  /** The pieces the pattern `[（(]翻[評评]：([^）)]+)[）)]` matches: the opener
      and closer may be of different widths, the body is not empty and holds
      no closing parenthesis of either width. */
  predicate IsAnnotation(p: Piece)
  {
    && p.Note?
    && IsOpener(p.opener)
    && IsReview(p.review)
    && |p.body| > 0
    && (forall k :: 0 <= k < |p.body| ==> !IsCloser(p.body[k]))
    && IsCloser(p.closer)
  }

  /** The characters a piece stands for. */
  function PieceText(p: Piece): string
  {
    match p
    case Text(c) => [c]
    case Note(o, v, b, c) => [o, TRANSLATION_MARK, v, COLON] + b + [c]
  }

  function Render(pieces: seq<Piece>): string
  {
    if pieces == [] then [] else PieceText(pieces[0]) + Render(pieces[1..])
  }

  /** The first closing parenthesis at or after position `i`. */
  function FindCloser(s: string, i: nat): (r: Option<nat>)
    requires i <= |s|
    ensures r.Some? ==> i <= r.value < |s| && IsCloser(s[r.value]) && forall k :: i <= k < r.value ==> !IsCloser(s[k])
    ensures r.None? ==> forall k :: i <= k < |s| ==> !IsCloser(s[k])
    decreases |s| - i
  {
    if i == |s| then None
    else if IsCloser(s[i]) then Some(i)
    else FindCloser(s, i + 1)
  }

  /** The match of the pattern at the start of `s`, if there is one. The
      greedy body runs to the first closing parenthesis, so there is at most
      one match at a position. */
  function MatchAt(s: string): (r: Option<Piece>)
    ensures r.Some? ==> IsAnnotation(r.value) && PieceText(r.value) <= s
  {
    if |s| >= 4 && IsOpener(s[0]) && s[1] == TRANSLATION_MARK && IsReview(s[2]) && s[3] == COLON then
      match FindCloser(s, 4)
      case Some(j) =>
        if j > 4 then
          var p := Note(s[0], s[2], s[4..j], s[j]);
          assert PieceText(p) == s[..j + 1];
          Some(p)
        else None
      case None => None
    else None
  }

  /** Whenever an annotation is a prefix of `s`, the scan finds exactly that
      annotation there: no match is missed and none is cut short or overrun. */
  lemma MatchAtComplete(s: string, p: Piece)
    requires IsAnnotation(p) && PieceText(p) <= s
    ensures MatchAt(s) == Some(p)
  {
    var text := PieceText(p);
    var end := 4 + |p.body|;
    assert text[end] == p.closer;
    assert s[end] == p.closer;
    forall k | 4 <= k < end
      ensures !IsCloser(s[k])
    {
      assert s[k] == text[k] == p.body[k - 4];
    }
    var j := FindCloser(s, 4);
    assert j == Some(end);
    assert s[4..end] == p.body;
  }

  /** An annotation with an empty body, such as `（翻评：）`, is not a match. */
  lemma EmptyBodyIsNoMatch(s: string)
    requires |s| >= 5
    requires IsOpener(s[0]) && s[1] == TRANSLATION_MARK && IsReview(s[2]) && s[3] == COLON && IsCloser(s[4])
    ensures MatchAt(s) == None
  {
    assert FindCloser(s, 4) == Some(4);
  }

  /** The left-to-right scan: at each position an annotation is taken whole if
      one starts there, else the character is kept. */
  function Tokenize(s: string): (pieces: seq<Piece>)
    ensures forall k :: 0 <= k < |pieces| && pieces[k].Note? ==> IsAnnotation(pieces[k])
    decreases |s|
  {
    if s == [] then []
    else
      match MatchAt(s)
      case Some(p) => [p] + Tokenize(s[|PieceText(p)|..])
      case None => [Text(s[0])] + Tokenize(s[1..])
  }

  lemma RenderCons(p: Piece, rest: seq<Piece>)
    ensures Render([p] + rest) == PieceText(p) + Render(rest)
  {
    assert ([p] + rest)[1..] == rest;
  }

  /** Nothing is lost or invented: the pieces spell out the entry. */
  lemma {:induction false} TokenizeRoundTrip(s: string)
    ensures Render(Tokenize(s)) == s
    decreases |s|
  {
    if s != [] {
      match MatchAt(s)
      case Some(p) =>
        var n := |PieceText(p)|;
        var rest := Tokenize(s[n..]);
        assert Tokenize(s) == [p] + rest;
        TokenizeRoundTrip(s[n..]);
        RenderCons(p, rest);
        assert PieceText(p) == s[..n];
        assert s == s[..n] + s[n..];
      case None =>
        var rest := Tokenize(s[1..]);
        assert Tokenize(s) == [Text(s[0])] + rest;
        TokenizeRoundTrip(s[1..]);
        RenderCons(Text(s[0]), rest);
        assert s == [s[0]] + s[1..];
    }
  }

  /** What `re.sub` leaves: the kept characters, in order. */
  function Kept(pieces: seq<Piece>): (r: string)
    ensures |r| <= |Render(pieces)|
  {
    if pieces == [] then []
    else (match pieces[0] case Text(c) => [c] case Note(_, _, _, _) => []) + Kept(pieces[1..])
  }

  /** Where no annotation starts, the scan keeps the first character. */
  lemma KeptHeadNoMatch(s: string)
    requires s != [] && MatchAt(s) == None
    ensures Kept(Tokenize(s)) == [s[0]] + Kept(Tokenize(s[1..]))
  {
    var rest := Tokenize(s[1..]);
    assert Tokenize(s) == [Text(s[0])] + rest;
    assert ([Text(s[0])] + rest)[1..] == rest;
  }

  /** No annotation starts at a character that is not an opening parenthesis. */
  lemma NoMatchWithoutOpener(s: string)
    requires s != [] && !IsOpener(s[0])
    ensures MatchAt(s) == None
  {
  }

  /** Where no annotation can start at position `i`, because `s[i]` is not an
      opening parenthesis, the scan keeps `s[i]`. */
  lemma KeptAt(s: string, i: nat)
    requires i < |s| && !IsOpener(s[i])
    ensures Kept(Tokenize(s[i..])) == [s[i]] + Kept(Tokenize(s[i + 1..]))
  {
    NoMatchWithoutOpener(s[i..]);
    KeptHeadNoMatch(s[i..]);
    assert s[i..][1..] == s[i + 1..];
  }

  /** A character in front of a slice extends the slice by one. */
  lemma ConsSlice(s: string, i: nat, m: nat, t: string)
    requires i < m <= |s|
    ensures [s[i]] + (s[i + 1..m] + t) == s[i..m] + t
  {
    assert s[i..m] == [s[i]] + s[i + 1..m];
  }

  /** The first character in front of the next `m - 1` is the first `m`. */
  lemma HeadSlice(s: string, m: nat, t: string)
    requires 1 <= m <= |s|
    ensures [s[0]] + (s[1..m] + t) == s[..m] + t
  {
    assert s[..m] == [s[0]] + s[1..m];
  }

  /** Over a stretch with no opening parenthesis, the scan keeps every
      character. */
  lemma {:induction false} KeptUnopened(s: string, i: nat, m: nat)
    requires i <= m <= |s|
    requires forall k :: i <= k < m ==> !IsOpener(s[k])
    ensures Kept(Tokenize(s[i..])) == s[i..m] + Kept(Tokenize(s[m..]))
    decreases m - i
  {
    if i < m {
      KeptAt(s, i);
      KeptUnopened(s, i + 1, m);
      ConsSlice(s, i, m, Kept(Tokenize(s[m..])));
    } else {
      assert s[i..m] == [];
    }
  }

  /** Where no annotation starts at the head and no opening parenthesis
      follows before position `m`, the scan keeps the first `m` characters. */
  lemma KeptPastHead(s: string, m: nat)
    requires 1 <= m <= |s| && MatchAt(s) == None
    requires forall k :: 1 <= k < m ==> !IsOpener(s[k])
    ensures Kept(Tokenize(s)) == s[..m] + Kept(Tokenize(s[m..]))
  {
    var t := Kept(Tokenize(s[m..]));
    KeptUnopened(s, 1, m);
    HeadSlice(s, m, t);
    KeptHeadNoMatch(s);
  }

  /** When the scan reaches an annotation with an empty body, such as
      `（翻评：）`, `re.sub` keeps all five of its characters: none of them
      starts a match. */
  lemma EmptyBodyStays(s: string)
    requires |s| >= 5
    requires IsOpener(s[0]) && s[1] == TRANSLATION_MARK && IsReview(s[2]) && s[3] == COLON && IsCloser(s[4])
    ensures Kept(Tokenize(s)) == s[..5] + Kept(Tokenize(s[5..]))
  {
    EmptyBodyIsNoMatch(s);
    KeptPastHead(s, 5);
  }

  /** What `re.findall` returns: the captured bodies, in order. The bound
      says that one group captures at most one body per piece, which is why
      the comments can be counted by the removed segments. */
  function Bodies(pieces: seq<Piece>): (r: seq<string>)
    ensures |r| <= |pieces|
  {
    if pieces == [] then []
    else (match pieces[0] case Text(_) => [] case Note(_, _, b, _) => [b]) + Bodies(pieces[1..])
  }

  /** The number of segments `re.sub` removes. */
  function NoteCount(pieces: seq<Piece>): nat
  {
    if pieces == [] then 0 else (if pieces[0].Note? then 1 else 0) + NoteCount(pieces[1..])
  }

  lemma {:induction false} BodiesOfAnnotations(pieces: seq<Piece>)
    requires forall k :: 0 <= k < |pieces| && pieces[k].Note? ==> IsAnnotation(pieces[k])
    ensures |Bodies(pieces)| == NoteCount(pieces)
    ensures forall k :: 0 <= k < |Bodies(pieces)| ==>
      |Bodies(pieces)[k]| > 0 && forall j :: 0 <= j < |Bodies(pieces)[k]| ==> !IsCloser(Bodies(pieces)[k][j])
  {
    if pieces != [] {
      BodiesOfAnnotations(pieces[1..]);
    }
  }

  /** `process_entry`: the entry with every annotation cut out and then
      stripped, and the stripped body of every annotation, in order. */
  function ProcessEntry(entry: string): (string, seq<string>)
  {
    var pieces := Tokenize(entry);
    var bodies := Bodies(pieces);
    (Strip(Kept(pieces)), seq(|bodies|, k requires 0 <= k < |bodies| => Strip(bodies[k])))
  }

  /** One comment per removed annotation; no comment holds a closing
      parenthesis; the cleaned entry is no longer than the entry and has no
      whitespace at either end. */
  lemma ProcessEntryShape(entry: string)
    ensures var r := ProcessEntry(entry);
      && |r.1| == NoteCount(Tokenize(entry))
      && (forall k :: 0 <= k < |r.1| ==> forall j :: 0 <= j < |r.1[k]| ==> !IsCloser(r.1[k][j]))
      && |r.0| <= |entry|
      && (r.0 == [] || (!IsWhitespace(r.0[0]) && !IsWhitespace(r.0[|r.0| - 1])))
  {
    var pieces := Tokenize(entry);
    var bodies := Bodies(pieces);
    var r := ProcessEntry(entry);
    assert r.0 == Strip(Kept(pieces));
    assert |r.1| == |bodies| && forall k :: 0 <= k < |bodies| ==> r.1[k] == Strip(bodies[k]);
    TokenizeRoundTrip(entry);
    BodiesOfAnnotations(pieces);
    forall k | 0 <= k < |r.1|
      ensures forall j :: 0 <= j < |r.1[k]| ==> !IsCloser(r.1[k][j])
    {
      StripNoCloser(bodies[k]);
    }
  }

  /** Stripping adds no character, so no closing parenthesis either. */
  lemma StripNoCloser(s: string)
    requires forall j :: 0 <= j < |s| ==> !IsCloser(s[j])
    ensures forall j :: 0 <= j < |Strip(s)| ==> !IsCloser(Strip(s)[j])
  {
    StripInfix(s);
  }

  lemma {:induction false} NoMarkAllKept(entry: string)
    requires TRANSLATION_MARK !in entry
    ensures Kept(Tokenize(entry)) == entry && Bodies(Tokenize(entry)) == []
    decreases |entry|
  {
    if entry != [] {
      assert MatchAt(entry) == None by {
        if |entry| >= 4 {
          assert entry[1] in entry;
        }
      }
      var rest := entry[1..];
      assert TRANSLATION_MARK !in rest by {
        forall k | 0 <= k < |rest|
          ensures rest[k] != TRANSLATION_MARK
        {
          assert rest[k] == entry[k + 1];
        }
      }
      NoMarkAllKept(rest);
      assert Tokenize(entry) == [Text(entry[0])] + Tokenize(rest);
      assert entry == [entry[0]] + rest;
    }
  }

  /** Without the mark 翻 there is nothing to extract: no comments, and the
      cleaned entry is the stripped entry. */
  lemma NoMarkNothingExtracted(entry: string)
    requires TRANSLATION_MARK !in entry
    ensures ProcessEntry(entry) == (Strip(entry), [])
  {
    NoMarkAllKept(entry);
    assert ProcessEntry(entry).1 == [];
  }

  /** One item of the summary file, with the keys the pipeline reads. */
  datatype NewsItem = NewsItem(url: string, datetime: string, entry: Option<string>, comment: Option<seq<string>>)

  /** What the loop does to one item: one with an `entry` gets the cleaned
      entry and a `comment` list; one without is left exactly as it was. */
  function Annotate(item: NewsItem): NewsItem
  {
    match item.entry
    case None => item
    case Some(e) =>
      var (cleaned, comments) := ProcessEntry(e);
      item.(entry := Some(cleaned), comment := Some(comments))
  }

  /** An item keeps its URL and date; an item without `entry` is left as it
      was, and one with an `entry` ends with both `entry` and `comment`. */
  lemma AnnotateFields(item: NewsItem)
    ensures Annotate(item).url == item.url && Annotate(item).datetime == item.datetime
    ensures item.entry.None? ==> Annotate(item) == item
    ensures item.entry.Some? ==> Annotate(item).entry.Some? && Annotate(item).comment.Some?
  {
  }

  /** Every item of a file annotated. */
  function AnnotatedItems(items: seq<NewsItem>): (r: seq<NewsItem>)
    ensures |r| == |items|
    ensures forall k :: 0 <= k < |r| ==> r[k] == Annotate(items[k])
  {
    seq(|items|, k requires 0 <= k < |items| => Annotate(items[k]))
  }

  /** Annotating item `i` of a file whose first `i` items are annotated
      leaves its first `i + 1` items annotated. */
  lemma AnnotateStep(before: seq<NewsItem>, i: nat)
    requires i < |before|
    ensures var cur := AnnotatedItems(before[..i]) + before[i..];
      cur[i := Annotate(cur[i])] == AnnotatedItems(before[..i + 1]) + before[i + 1..]
  {
    var cur := AnnotatedItems(before[..i]) + before[i..];
    var next := AnnotatedItems(before[..i + 1]) + before[i + 1..];
    assert cur[i] == before[i];
    forall k | 0 <= k < |before|
      ensures cur[i := Annotate(cur[i])][k] == next[k]
    {
      if k < i {
        assert cur[k] == Annotate(before[k]);
      }
    }
  }

  /** The top-level loop: every item of the file updated in place. */
  method AnnotateAll(data: array<NewsItem>)
    modifies data
    ensures data[..] == AnnotatedItems(old(data[..]))
  {
    ghost var before := data[..];
    for i := 0 to data.Length
      invariant data[..] == AnnotatedItems(before[..i]) + before[i..]
    {
      AnnotateStep(before, i);
      data[i] := Annotate(data[i]);
    }
    assert before[..data.Length] == before;
  }
}
