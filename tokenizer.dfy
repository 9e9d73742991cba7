/** The record tokenizer of Parser#sort: the line-break normalisation of
    the whole file, then the StringScanner loop that cuts the normalised
    text into date-headed records. */
module Tokenizer {
  import opened Text
  import opened Wrappers

  // ---------------------------------------------------------------------
  // Normalisation: gsub(/\n+|\r+/, "\n").squeeze("\n").strip

  predicate NoCR(s: string) {
    forall i :: 0 <= i < |s| ==> s[i] != '\r'
  }

  predicate NoDoubleBreak(s: string) {
    forall i :: 0 <= i < |s| - 1 ==> s[i] != '\n' || s[i + 1] != '\n'
  }

  /** No whitespace (in the sense of String#strip) at either end. */
  predicate Stripped(s: string) {
    |s| == 0 || (!IsStripSpace(s[0]) && !IsStripSpace(s[|s| - 1]))
  }

  predicate Normalized(s: string) {
    NoCR(s) && NoDoubleBreak(s) && Stripped(s)
  }

  /** `s` without its leading run of `c`. */
  function DropRun(s: string, c: char): (r: string)
    ensures |r| <= |s| && r == s[|s| - |r|..]
    ensures |s| > 0 && s[0] == c ==> |r| < |s|
    ensures forall i :: 0 <= i < |s| - |r| ==> s[i] == c
    ensures r == [] || r[0] != c
  {
    if s != [] && s[0] == c then
      var t := DropRun(s[1..], c);
      assert forall i :: 0 < i < |s| - |t| ==> s[i] == s[1..][i - 1];
      t
    else s
  }

  /** gsub(/\n+|\r+/, "\n"): every maximal run of `\n`, and every maximal
      run of `\r`, becomes a single `\n`. A `\r\n` pair is two runs and
      becomes `\n\n`; squeeze then merges them. */
  function ReplaceBreaks(s: string): (r: string)
    ensures NoCR(r)
    ensures |s| > 0 ==> |r| > 0 && (r[0] == '\n' <==> (s[0] == '\n' || s[0] == '\r'))
    ensures |s| > 0 && s[0] != '\n' && s[0] != '\r' ==> r[0] == s[0]
    decreases |s|
  {
    if s == [] then []
    else if s[0] == '\n' || s[0] == '\r' then "\n" + ReplaceBreaks(DropRun(s, s[0]))
    else [s[0]] + ReplaceBreaks(s[1..])
  }

  /** squeeze("\n"): every run of `\n` becomes a single `\n`. */
  function Squeeze(s: string): (r: string)
    ensures NoDoubleBreak(r)
    ensures NoCR(s) ==> NoCR(r)
    ensures |s| > 0 ==> |r| > 0 && r[0] == s[0]
  {
    if |s| <= 1 then s
    else if s[0] == '\n' && s[1] == '\n' then Squeeze(s[1..])
    else [s[0]] + Squeeze(s[1..])
  }

  /** Where the leading whitespace of `s` ends. */
  function Lead(s: string): (i: nat)
    ensures i <= |s|
    ensures forall k :: 0 <= k < i ==> IsStripSpace(s[k])
    ensures i == |s| || !IsStripSpace(s[i])
  {
    if s == [] || !IsStripSpace(s[0]) then 0 else 1 + Lead(s[1..])
  }

  /** Where the trailing whitespace of `s` begins, no earlier than `lo`. */
  function Trail(s: string, lo: nat): (j: nat)
    requires lo <= |s|
    ensures lo <= j <= |s|
    ensures forall k :: j <= k < |s| ==> IsStripSpace(s[k])
    ensures j == lo || !IsStripSpace(s[j - 1])
  {
    if |s| == lo || !IsStripSpace(s[|s| - 1]) then |s| else Trail(s[..|s| - 1], lo)
  }

  /** String#strip: the text between the leading and trailing whitespace. */
  function Strip(s: string): (r: string)
    ensures Stripped(r)
    ensures NoCR(s) ==> NoCR(r)
    ensures NoDoubleBreak(s) ==> NoDoubleBreak(r)
  {
    var i := Lead(s);
    var j := Trail(s, i);
    assert forall k :: 0 <= k < j - i ==> s[i..j][k] == s[i + k];
    s[i..j]
  }

  /** The text Parser#sort tokenises: no `\r`, no blank line, and no
      whitespace at either end. */
  function Normalize(file: string): (text: string)
    ensures Normalized(text)
  {
    Strip(Squeeze(ReplaceBreaks(file)))
  }

  // ---------------------------------------------------------------------
  // The scanner

  /** A date token `\d\d\d\d-\d\d-\d\d` starts at `i`. */
  predicate DateAt(s: string, i: nat) {
    i + 10 <= |s| &&
    IsDigit(s[i]) && IsDigit(s[i + 1]) && IsDigit(s[i + 2]) && IsDigit(s[i + 3]) && s[i + 4] == '-' &&
    IsDigit(s[i + 5]) && IsDigit(s[i + 6]) && s[i + 7] == '-' &&
    IsDigit(s[i + 8]) && IsDigit(s[i + 9])
  }

  /** The lookahead of MATCH succeeds at `i`: a `\n` followed by a date
      token. (MATCH's trailing `(=\d\d\d\d-\d\d-\d\d)*` may repeat zero
      times, so it never decides where the lookahead succeeds.) */
  predicate BoundaryAt(s: string, i: nat) {
    i < |s| && s[i] == '\n' && DateAt(s, i + 1)
  }

  /** StringScanner#scan_until(MATCH) from `pos`: the first position from
      `pos` on where a boundary or the end of input (`\z`) is. */
  function ScanUntil(s: string, pos: nat): (p: nat)
    requires pos <= |s|
    ensures pos <= p <= |s|
    ensures p == |s| || BoundaryAt(s, p)
    decreases |s| - pos
  {
    if pos == |s| || BoundaryAt(s, pos) then pos else ScanUntil(s, pos + 1)
  }

  /** scan_until stops at the first boundary: there is none before it. */
  lemma {:induction false} ScanUntilFirst(s: string, pos: nat)
    requires pos <= |s|
    ensures forall i :: pos <= i < ScanUntil(s, pos) ==> !BoundaryAt(s, i)
    decreases |s| - pos
  {
    if pos < |s| && !BoundaryAt(s, pos) {
      ScanUntilFirst(s, pos + 1);
    }
  }

  /** StringScanner#skip_until(OTHER_MATCH) from `pos`: the first position
      from `pos` on where a date token starts, or None (the scanner stays
      put) when there is none. */
  function SkipUntil(s: string, pos: nat): (q: Option<nat>)
    requires pos <= |s|
    ensures q.Some? ==> pos <= q.value <= |s| && DateAt(s, q.value)
    decreases |s| - pos
  {
    if pos == |s| then None
    else if DateAt(s, pos) then Some(pos)
    else SkipUntil(s, pos + 1)
  }

  /** skip_until stops at the first date token, and finds none only when
      there is none. */
  lemma {:induction false} SkipUntilFirst(s: string, pos: nat)
    requires pos <= |s|
    ensures SkipUntil(s, pos).Some? ==> forall i :: pos <= i < SkipUntil(s, pos).value ==> !DateAt(s, i)
    ensures SkipUntil(s, pos).None? ==> forall i :: pos <= i < |s| ==> !DateAt(s, i)
    decreases |s| - pos
  {
    if pos < |s| && !DateAt(s, pos) {
      SkipUntilFirst(s, pos + 1);
    }
  }

  /** After scan_until stops, skip_until steps over exactly the boundary's
      `\n`, or finds nothing at the end of input. */
  lemma SkipPastBoundary(s: string, p: nat)
    requires p == |s| || BoundaryAt(s, p)
    ensures SkipUntil(s, p) == if p < |s| then Some(p + 1) else None
  {
    if p < |s| {
      assert !DateAt(s, p);
      assert SkipUntil(s, p) == SkipUntil(s, p + 1);
    }
  }

  /** The records the scanner loop pushes from position `pos` on: the text up
      to the next boundary, then, past the boundary's `\n`, the rest. */
  function Split(s: string, pos: nat): seq<string>
    requires pos <= |s|
    decreases |s| - pos
  {
    if pos == |s| then []
    else
      var p := ScanUntil(s, pos);
      if p < |s| then [s[pos..p]] + Split(s, p + 1) else [s[pos..p]]
  }

  /** The records of the whole text. */
  function Records(text: string): seq<string> {
    Split(text, 0)
  }

  /** The `until scanner.eos?` loop of Parser#sort, with the scanner's
      position as an index into the text. */
  method Tokenize(text: string) returns (results: seq<string>)
    ensures results == Records(text)
  {
    var pos := 0;
    results := [];
    while pos < |text|
      invariant pos <= |text|
      invariant results + Split(text, pos) == Records(text)
      decreases |text| - pos
    {
      var p := ScanUntil(text, pos);
      Advance(text, pos, results);
      results := results + [text[pos..p]];
      var q := SkipUntil(text, p);
      SkipPastBoundary(text, p);
      if q.Some? {
        pos := q.value;
        SplitAfterNext(text, p);
      } else {
        pos := p;
        SplitEnd(text, p);
      }
    }
  }

  /** One turn of the scanner loop: the piece up to the next boundary
      joins the records found; the records after it are still to come. */
  lemma Advance(text: string, pos: nat, found: seq<string>)
    requires pos < |text| && found + Split(text, pos) == Records(text)
    ensures (found + [text[pos..ScanUntil(text, pos)]]) + SplitAfter(text, ScanUntil(text, pos)) == Records(text)
  {
    var p := ScanUntil(text, pos);
    SplitCons(text, pos);
    PushPiece(found, text[pos..p], SplitAfter(text, p), Records(text));
  }

  lemma SplitAfterNext(s: string, p: nat)
    requires p < |s|
    ensures SplitAfter(s, p) == Split(s, p + 1)
  {
  }

  /** Moving the next piece from the records still to come to the records
      found keeps the whole. */
  lemma PushPiece(found: seq<string>, x: string, after: seq<string>, all: seq<string>)
    requires found + ([x] + after) == all
    ensures (found + [x]) + after == all
  {
    assert (found + [x]) + after == found + ([x] + after);
  }

  // ---------------------------------------------------------------------
  // What the records are

  /** A step of the split that stops at a boundary: the piece, then the
      records after the boundary's `\n`. */
  lemma SplitMid(s: string, pos: nat, p: nat)
    requires pos < |s| && p == ScanUntil(s, pos) && p < |s|
    ensures Split(s, pos) == [s[pos..p]] + Split(s, p + 1)
  {
  }

  /** A step of the split that reaches the end: the rest is one record. */
  lemma SplitLast(s: string, pos: nat)
    requires pos < |s| && ScanUntil(s, pos) == |s|
    ensures Split(s, pos) == [s[pos..]]
  {
    assert s[pos..ScanUntil(s, pos)] == s[pos..];
  }

  /** No `\n` followed by a date token anywhere in `r`. */
  predicate NoBoundary(r: string) {
    forall j :: 0 <= j < |r| ==> !BoundaryAt(r, j)
  }

  /** The piece scan_until returns holds no `\n` followed by a date token. */
  lemma PieceHasNoBoundary(s: string, pos: nat)
    requires pos <= |s|
    ensures NoBoundary(s[pos..ScanUntil(s, pos)])
  {
    var p := ScanUntil(s, pos);
    ScanUntilFirst(s, pos);
    forall j | 0 <= j < |s[pos..p]| ensures !BoundaryAt(s[pos..p], j) {
      if j < p - pos {
        assert !BoundaryAt(s, pos + j);
      }
    }
  }

  /** A piece that starts at a date token extends at least over that token. */
  lemma PieceFromDate(s: string, pos: nat)
    requires DateAt(s, pos)
    ensures ScanUntil(s, pos) >= pos + 10
    ensures DateAt(s[pos..ScanUntil(s, pos)], 0)
  {
    var p := ScanUntil(s, pos);
    assert p == |s| || s[p] == '\n';
  }

  /** A boundary is followed by a date token, where a record starts. */
  lemma AfterBoundary(s: string, p: nat)
    requires p < |s| && BoundaryAt(s, p)
    ensures DateAt(s, p + 1) && !BoundaryAt(s, p + 1)
  {
  }

  /** A boundary is not the last character of the text. */
  lemma BoundaryNotLast(s: string, p: nat)
    requires p < |s| && BoundaryAt(s, p)
    ensures p + 1 < |s|
  {
  }

  lemma SplitNonEmpty(s: string, q: nat)
    requires q < |s|
    ensures Split(s, q) != []
  {
  }

  /** Text cut at a line break joins back from the piece before it and the
      lines after it. */
  lemma CutJoin(s: string, pos: nat, p: nat, rest: seq<string>)
    requires pos <= p < |s| && s[p] == '\n' && rest != [] && JoinLines(rest) == s[p + 1..]
    ensures JoinLines([s[pos..p]] + rest) == s[pos..]
  {
    JoinLinesCons(s[pos..p], rest);
    assert s[pos..] == s[pos..p] + "\n" + s[p + 1..];
  }

  /** One step of SplitJoin: if the records after a boundary join back to
      the text after it, the records from `pos` join back to the text from
      `pos`. */
  lemma SplitJoinStep(s: string, pos: nat)
    requires pos < |s| && ScanUntil(s, pos) < |s|
    requires JoinLines(Split(s, ScanUntil(s, pos) + 1)) == s[ScanUntil(s, pos) + 1..]
    ensures JoinLines(Split(s, pos)) == s[pos..]
  {
    var p := ScanUntil(s, pos);
    SplitMid(s, pos, p);
    BoundaryNotLast(s, p);
    SplitNonEmpty(s, p + 1);
    CutJoin(s, pos, p, Split(s, p + 1));
  }

  lemma SplitJoinEnd(s: string, pos: nat)
    requires pos == |s|
    ensures JoinLines(Split(s, pos)) == s[pos..]
  {
    assert Split(s, pos) == [];
  }

  lemma SplitJoinLast(s: string, pos: nat)
    requires pos < |s| && ScanUntil(s, pos) == |s|
    ensures JoinLines(Split(s, pos)) == s[pos..]
  {
    SplitLast(s, pos);
  }

  lemma {:induction false} SplitJoin(s: string, pos: nat)
    requires pos <= |s|
    ensures JoinLines(Split(s, pos)) == s[pos..]
    decreases |s| - pos
  {
    if pos == |s| {
      SplitJoinEnd(s, pos);
    } else if ScanUntil(s, pos) < |s| {
      SplitJoin(s, ScanUntil(s, pos) + 1);
      SplitJoinStep(s, pos);
    } else {
      SplitJoinLast(s, pos);
    }
  }

  /** No record holds a `\n` followed by a date token. */
  predicate AllNoBoundary(rs: seq<string>) {
    forall k :: 0 <= k < |rs| ==> NoBoundary(rs[k])
  }

  /** Every record after the first starts with a date token. */
  predicate DatedAfterFirst(rs: seq<string>) {
    forall k :: 0 < k < |rs| ==> DateAt(rs[k], 0)
  }

  /** A record as the tokenizer cuts it from normalised text: non-empty,
      free of `\r` and of blank lines, and not ending in `\n`. */
  predicate Clean(r: string) {
    r != [] && NoCR(r) && NoDoubleBreak(r) && r[|r| - 1] != '\n'
  }

  predicate AllClean(rs: seq<string>) {
    forall k :: 0 <= k < |rs| ==> Clean(rs[k])
  }

  lemma ConsNoBoundary(x: string, rest: seq<string>)
    requires NoBoundary(x) && AllNoBoundary(rest)
    ensures AllNoBoundary([x] + rest)
  {
    var rs := [x] + rest;
    assert forall k :: 0 < k < |rs| ==> rs[k] == rest[k - 1];
  }

  /** A record put in front of records of which the first is dated. */
  lemma ConsDated(x: string, rest: seq<string>)
    requires DatedAfterFirst(rest) && (rest != [] ==> DateAt(rest[0], 0))
    ensures DatedAfterFirst([x] + rest) && ([x] + rest)[0] == x
  {
    var rs := [x] + rest;
    assert forall k :: 0 < k < |rs| ==> rs[k] == rest[k - 1];
  }

  lemma ConsClean(x: string, rest: seq<string>)
    requires Clean(x) && AllClean(rest)
    ensures AllClean([x] + rest)
  {
    var rs := [x] + rest;
    assert forall k :: 0 < k < |rs| ==> rs[k] == rest[k - 1];
  }

  /** One step of SplitShape, at a boundary. */
  /** The records after the piece that ends at `p`: none at the end of the
      text, else those after the boundary's `\n`. */
  function SplitAfter(s: string, p: nat): (rs: seq<string>)
    requires p <= |s|
    ensures p == |s| ==> rs == []
  {
    if p < |s| then Split(s, p + 1) else []
  }

  lemma SplitEnd(s: string, pos: nat)
    requires pos == |s|
    ensures Split(s, pos) == []
  {
  }

  /** Split unfolded once, with the rest left abstract. */
  lemma SplitCons(s: string, pos: nat)
    requires pos < |s|
    ensures Split(s, pos) == [s[pos..ScanUntil(s, pos)]] + SplitAfter(s, ScanUntil(s, pos))
  {
    var p := ScanUntil(s, pos);
    if p < |s| {
      SplitMid(s, pos, p);
    } else {
      assert Split(s, pos) == [s[pos..p]] + [];
    }
  }

  lemma SplitNoBoundaryStep(s: string, pos: nat)
    requires pos < |s|
    requires ScanUntil(s, pos) < |s| ==> AllNoBoundary(Split(s, ScanUntil(s, pos) + 1))
    ensures AllNoBoundary(Split(s, pos))
  {
    var p := ScanUntil(s, pos);
    PieceHasNoBoundary(s, pos);
    SplitCons(s, pos);
    ConsNoBoundary(s[pos..p], SplitAfter(s, p));
  }

  lemma {:induction false} SplitNoBoundary(s: string, pos: nat)
    requires pos <= |s|
    ensures AllNoBoundary(Split(s, pos))
    decreases |s| - pos
  {
    if pos == |s| {
      SplitEnd(s, pos);
    } else {
      if ScanUntil(s, pos) < |s| {
        SplitNoBoundary(s, ScanUntil(s, pos) + 1);
      }
      SplitNoBoundaryStep(s, pos);
    }
  }

  lemma SplitDatedStep(s: string, pos: nat)
    requires pos < |s|
    requires ScanUntil(s, pos) < |s| ==> DatedAfterFirst(Split(s, ScanUntil(s, pos) + 1))
    requires ScanUntil(s, pos) < |s| ==> DateAt(Split(s, ScanUntil(s, pos) + 1)[0], 0)
    ensures DatedAfterFirst(Split(s, pos))
    ensures DateAt(s, pos) ==> DateAt(Split(s, pos)[0], 0)
  {
    var p := ScanUntil(s, pos);
    if DateAt(s, pos) {
      PieceFromDate(s, pos);
    }
    SplitCons(s, pos);
    ConsDated(s[pos..p], SplitAfter(s, p));
  }

  lemma {:induction false} SplitDated(s: string, pos: nat)
    requires pos <= |s|
    ensures DatedAfterFirst(Split(s, pos))
    ensures DateAt(s, pos) ==> DateAt(Split(s, pos)[0], 0)
    decreases |s| - pos
  {
    if pos == |s| {
      SplitEnd(s, pos);
    } else {
      var p := ScanUntil(s, pos);
      if p < |s| {
        SplitDated(s, p + 1);
        AfterBoundary(s, p);
      }
      SplitDatedStep(s, pos);
    }
  }

  /** The piece scan_until cuts from normalised text, at a record start,
      is clean. */
  lemma PieceClean(s: string, pos: nat)
    requires Normalized(s) && pos < |s| && !BoundaryAt(s, pos)
    ensures Clean(s[pos..ScanUntil(s, pos)])
  {
    var p := ScanUntil(s, pos);
    var r := s[pos..p];
    assert forall i :: 0 <= i < |r| ==> r[i] == s[pos + i];
    if p < |s| {
      assert s[p] == '\n' && s[p - 1] != '\n';
    }
  }

  lemma SplitCleanStep(s: string, pos: nat)
    requires Normalized(s) && pos < |s| && !BoundaryAt(s, pos)
    requires ScanUntil(s, pos) < |s| ==> AllClean(Split(s, ScanUntil(s, pos) + 1))
    ensures AllClean(Split(s, pos))
  {
    var p := ScanUntil(s, pos);
    PieceClean(s, pos);
    SplitCons(s, pos);
    ConsClean(s[pos..p], SplitAfter(s, p));
  }

  lemma {:induction false} SplitClean(s: string, pos: nat)
    requires Normalized(s) && pos <= |s|
    requires pos < |s| ==> !BoundaryAt(s, pos)
    ensures AllClean(Split(s, pos))
    decreases |s| - pos
  {
    if pos == |s| {
      SplitEnd(s, pos);
    } else {
      var p := ScanUntil(s, pos);
      if p < |s| {
        AfterBoundary(s, p);
        SplitClean(s, p + 1);
      }
      SplitCleanStep(s, pos);
    }
  }

  /** The tokenizer's guarantees on normalised text: records are clean (so
      non-empty), joining them with `\n` gives the text back, every record
      after the first starts with a date token (the first one too when the
      text does), and no record holds a `\n` followed by a date token. */
  lemma RecordsProperties(text: string)
    requires Normalized(text)
    ensures JoinLines(Records(text)) == text
    ensures AllClean(Records(text))
    ensures AllNoBoundary(Records(text)) && DatedAfterFirst(Records(text))
    ensures DateAt(text, 0) ==> forall k :: 0 <= k < |Records(text)| ==> DateAt(Records(text)[k], 0)
  {
    SplitJoin(text, 0);
    SplitNoBoundary(text, 0);
    SplitDated(text, 0);
    SplitClean(text, 0);
  }

  lemma {:induction false} ScanUntilIs(s: string, pos: nat, p: nat)
    requires pos <= p <= |s|
    requires forall i :: pos <= i < p ==> !BoundaryAt(s, i)
    requires p == |s| || BoundaryAt(s, p)
    ensures ScanUntil(s, pos) == p
    decreases p - pos
  {
    if pos < p {
      ScanUntilIs(s, pos + 1, p);
    }
  }

  lemma JoinLinesHead(rs: seq<string>)
    requires rs != []
    ensures |JoinLines(rs)| >= |rs[0]| && JoinLines(rs)[..|rs[0]|] == rs[0]
  {
    JoinLinesCons(rs[0], rs[1..]);
    assert [rs[0]] + rs[1..] == rs;
  }

  /** A record followed by `\n` (or by the end of the text) holds no
      boundary of the text, unless it holds one of its own. */
  lemma NoBoundaryWithin(s: string, pos: nat, r: string)
    requires pos + |r| <= |s| && s[pos..pos + |r|] == r
    requires pos + |r| == |s| || s[pos + |r|] == '\n'
    requires NoBoundary(r)
    ensures forall i :: pos <= i < pos + |r| ==> !BoundaryAt(s, i)
  {
    forall i | pos <= i < pos + |r| ensures !BoundaryAt(s, i) {
      assert !BoundaryAt(r, i - pos);
      assert forall m :: 0 <= m < |r| ==> s[pos + m] == r[m];
    }
  }

  predicate AllNonEmpty(rs: seq<string>) {
    forall k :: 0 <= k < |rs| ==> rs[k] != []
  }

  /** The records after the first keep the shape predicates. */
  lemma TailShape(rs: seq<string>)
    requires rs != [] && AllNonEmpty(rs) && DatedAfterFirst(rs) && AllNoBoundary(rs)
    ensures AllNonEmpty(rs[1..]) && DatedAfterFirst(rs[1..]) && AllNoBoundary(rs[1..])
  {
    assert forall k :: 0 <= k < |rs| - 1 ==> rs[1..][k] == rs[k + 1];
  }

  /** Where joined records continue the text, scan_until stops right after
      the first record, and the rest of the text is the others joined. */
  lemma FirstRecordCut(s: string, pos: nat, rs: seq<string>)
    requires pos <= |s| && s[pos..] == JoinLines(rs)
    requires rs != [] && NoBoundary(rs[0]) && (|rs| > 1 ==> DateAt(rs[1], 0))
    ensures pos + |rs[0]| <= |s| && s[pos..pos + |rs[0]|] == rs[0]
    ensures ScanUntil(s, pos) == pos + |rs[0]|
    ensures |rs| == 1 ==> pos + |rs[0]| == |s|
    ensures |rs| > 1 ==> pos + |rs[0]| < |s| && s[pos + |rs[0]| + 1..] == JoinLines(rs[1..])
  {
    var r, tail := rs[0], rs[1..];
    JoinLinesCons(r, tail);
    assert [r] + tail == rs;
    var e := pos + |r|;
    assert s[pos..e] == r;
    if tail == [] {
      assert e == |s|;
    } else {
      assert s[e] == '\n' && s[e + 1..] == JoinLines(tail);
      JoinLinesHead(tail);
      assert DateAt(s, e + 1) by {
        assert DateAt(tail[0], 0);
        assert forall m :: 0 <= m < |tail[0]| ==> s[e + 1 + m] == tail[0][m];
      }
    }
    NoBoundaryWithin(s, pos, r);
    ScanUntilIs(s, pos, e);
  }


  lemma SplitOfJoinEmpty(s: string, pos: nat)
    requires pos <= |s| && s[pos..] == JoinLines([])
    ensures Split(s, pos) == []
  {
    assert |s[pos..]| == 0;
  }

  /** The last record runs to the end of the text. */
  lemma SplitOfJoinLast(s: string, pos: nat, r: string)
    requires pos < |s| && ScanUntil(s, pos) == |s| && s[pos..] == r
    ensures Split(s, pos) == [r]
  {
    SplitLast(s, pos);
  }

  /** A record other than the last is cut where scan_until stops, and the
      others are split from after the boundary. */
  lemma SplitOfJoinMore(s: string, pos: nat, e: nat, r: string, rest: seq<string>)
    requires pos < e < |s| && ScanUntil(s, pos) == e && s[pos..e] == r
    requires Split(s, e + 1) == rest
    ensures Split(s, pos) == [r] + rest
  {
    SplitMid(s, pos, e);
  }

  lemma Reassemble(a: seq<string>, rs: seq<string>)
    requires rs != [] && (a == [rs[0]] + rs[1..] || (|rs| == 1 && a == [rs[0]]))
    ensures a == rs
  {
    assert rs == [rs[0]] + rs[1..];
  }

  /** Splitting, from `pos`, text that continues with records joined by
      `\n` gives those records back, when they are non-empty, every one
      after the first starts with a date token, and none holds a `\n`
      followed by a date token. */
  lemma {:induction false} SplitOfJoin(s: string, pos: nat, rs: seq<string>)
    requires pos <= |s| && s[pos..] == JoinLines(rs)
    requires AllNonEmpty(rs) && DatedAfterFirst(rs) && AllNoBoundary(rs)
    ensures Split(s, pos) == rs
    decreases |rs|
  {
    if rs == [] {
      SplitOfJoinEmpty(s, pos);
    } else {
      FirstRecordCut(s, pos, rs);
      var e := pos + |rs[0]|;
      if |rs| > 1 {
        TailShape(rs);
        SplitOfJoin(s, e + 1, rs[1..]);
        SplitOfJoinMore(s, pos, e, rs[0], rs[1..]);
      } else {
        SplitOfJoinLast(s, pos, rs[0]);
      }
      Reassemble(Split(s, pos), rs);
    }
  }

  /** Re-tokenising such records joined by `\n` gives them back. */
  lemma RecordsOfJoin(rs: seq<string>)
    requires AllNonEmpty(rs) && DatedAfterFirst(rs) && AllNoBoundary(rs)
    ensures Records(JoinLines(rs)) == rs
  {
    SplitOfJoin(JoinLines(rs), 0, rs);
  }

  // ---------------------------------------------------------------------
  // Normalised text is left alone by a second normalisation

  lemma {:induction false} ReplaceBreaksKeeps(s: string)
    requires NoCR(s) && NoDoubleBreak(s)
    ensures ReplaceBreaks(s) == s
    decreases |s|
  {
    if s != [] {
      ReplaceBreaksKeeps(s[1..]);
      if s[0] == '\n' {
        assert |s| == 1 || s[1] != '\n';
        assert DropRun(s, '\n') == s[1..] by {
          assert DropRun(s, '\n') == DropRun(s[1..], '\n');
        }
      }
      assert s == [s[0]] + s[1..];
    }
  }

  lemma {:induction false} SqueezeKeeps(s: string)
    requires NoDoubleBreak(s)
    ensures Squeeze(s) == s
  {
    if |s| > 1 {
      SqueezeKeeps(s[1..]);
      assert s == [s[0]] + s[1..];
    }
  }

  /** Normalising normalised text followed by one `\n` removes just that
      `\n`. */
  lemma NormalizeDropsFinalNewline(t: string)
    requires Normalized(t) && t != []
    ensures Normalize(t + "\n") == t
  {
    var s := t + "\n";
    assert NoCR(s);
    assert NoDoubleBreak(s) by {
      forall i | 0 <= i < |s| - 1 ensures s[i] != '\n' || s[i + 1] != '\n' {
        if i < |t| - 1 {
          assert s[i] == t[i] && s[i + 1] == t[i + 1];
        } else {
          assert s[i] == t[|t| - 1];
        }
      }
    }
    ReplaceBreaksKeeps(s);
    SqueezeKeeps(s);
    assert Lead(s) == 0;
    assert s[..|s| - 1] == t;
    assert Trail(s, 0) == Trail(t, 0);
    assert Trail(t, 0) == |t|;
    assert s[0..|t|] == t;
  }

  /** Normalising normalised text changes nothing. */
  lemma NormalizeKeeps(t: string)
    requires Normalized(t)
    ensures Normalize(t) == t
  {
    ReplaceBreaksKeeps(t);
    SqueezeKeeps(t);
    assert Lead(t) == 0;
    assert Trail(t, 0) == |t|;
    assert t[0..|t|] == t;
  }

  /** Normalising normalised text followed by a space and a `\n` removes
      just those two. */
  lemma NormalizeDropsSpaceNewline(t: string)
    requires Normalized(t) && t != []
    ensures Normalize(t + " \n") == t
  {
    var s := t + " \n";
    assert NoCR(s);
    assert NoDoubleBreak(s) by {
      forall i | 0 <= i < |s| - 1 ensures s[i] != '\n' || s[i + 1] != '\n' {
        if i < |t| - 1 {
          assert s[i] == t[i] && s[i + 1] == t[i + 1];
        } else if i == |t| - 1 {
          assert s[i] == t[|t| - 1];
        } else {
          assert s[i] == ' ';
        }
      }
    }
    ReplaceBreaksKeeps(s);
    SqueezeKeeps(s);
    assert Lead(s) == 0;
    assert s[..|s| - 1] == t + " ";
    assert (t + " ")[..|t|] == t;
    assert Trail(s, 0) == Trail(t + " ", 0);
    assert Trail(t + " ", 0) == Trail(t, 0);
    assert Trail(t, 0) == |t|;
    assert s[0..|t|] == t;
  }
}
