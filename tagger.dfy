/** Parser#tag: the posting pattern  (^\s+Expenses[^:])\s*(¥.+)  written out
    character by character, the substitution an answer makes, and the
    context line each prompt shows.

    As in Parser#clear, `^` can only match at the start of a line. The
    match is unique: `\s+` must stop where `Expenses` starts, so it takes
    the whole leading run of white space; `\s*` must stop at the `¥`, so it
    takes the whole run after the non-colon character; and `.+` is last,
    so it runs to the end of the line or its `\n`. */
module Tagger {
  import opened Text
  import opened Wrappers

  /** The yen sign U+00A5 that the pattern demands. */
  const Yen: char := '\U{A5}'

  /** Length of the run of `\s` characters that starts at `i`. */
  function SpaceRun(s: string, i: nat): (n: nat)
    requires i <= |s|
    ensures i + n <= |s|
    ensures i + n < |s| ==> !IsSpace(s[i + n])
    decreases |s| - i
  {
    if i < |s| && IsSpace(s[i]) then 1 + SpaceRun(s, i + 1) else 0
  }

  lemma {:induction false} SpaceRunSpaces(s: string, i: nat, j: nat)
    requires i <= |s| && i <= j < i + SpaceRun(s, i)
    ensures IsSpace(s[j])
    decreases j - i
  {
    if j > i {
      SpaceRunSpaces(s, i + 1, j);
    }
  }

  lemma {:induction false} SpaceRunIs(s: string, i: nat, n: nat)
    requires i + n <= |s|
    requires forall j :: i <= j < i + n ==> IsSpace(s[j])
    requires i + n < |s| ==> !IsSpace(s[i + n])
    ensures SpaceRun(s, i) == n
    decreases n
  {
    if n > 0 {
      SpaceRunIs(s, i + 1, n - 1);
    }
  }

  /** Where a match ends its groups: group 1 (white space, `Expenses` and
      one more character) at `prefixEnd`; group 2 (the amount, from the `¥`)
      runs from `amountStart` to `amountEnd`. */
  datatype Match = Match(prefixEnd: nat, amountStart: nat, amountEnd: nat)

  /** `pattern.match(line)`. */
  function TagMatch(line: string): (m: Option<Match>)
    ensures m.Some? ==> 10 <= m.value.prefixEnd <= m.value.amountStart &&
                        m.value.amountStart + 2 <= m.value.amountEnd <= |line|
  {
    var w := SpaceRun(line, 0);
    var p := w + 9;
    if w == 0 || p > |line| || line[w..w + 8] != "Expenses" || line[w + 8] == ':' then None
    else
      var q := p + SpaceRun(line, p);
      if q + 1 >= |line| || line[q] != Yen || line[q + 1] == '\n' then None
      else Some(Match(p, q, CharFrom(line, q + 1, '\n')))
  }

  /** match[1]: the text the answer replaces. */
  function Prefix(line: string, m: Match): string
    requires m.prefixEnd <= |line|
  {
    line[..m.prefixEnd]
  }

  /** match[2]: the amount, `¥` included. */
  function Amount(line: string, m: Match): string
    requires m.amountStart <= m.amountEnd <= |line|
  {
    line[m.amountStart..m.amountEnd]
  }

  /** What a match guarantees at the positions its search stopped. */
  predicate MatchAt(line: string, m: Match) {
    var w := m.prefixEnd - 9;
    10 <= m.prefixEnd <= m.amountStart && m.amountStart + 2 <= m.amountEnd <= |line| &&
    SpaceRun(line, 0) == w && line[w..w + 8] == "Expenses" && line[w + 8] != ':' &&
    m.amountStart == m.prefixEnd + SpaceRun(line, m.prefixEnd) && line[m.amountStart] == Yen &&
    line[m.amountStart + 1] != '\n' && m.amountEnd == CharFrom(line, m.amountStart + 1, '\n')
  }

  lemma TagMatchAt(line: string)
    requires TagMatch(line).Some?
    ensures MatchAt(line, TagMatch(line).value)
  {
  }

  /** A matching line is: white space, `Expenses`, one character that is not
      `:`, white space, `¥` and at least one more character up to the end of
      the line's text. */
  lemma MatchShape(line: string, m: Match)
    requires MatchAt(line, m)
    ensures var w := m.prefixEnd - 9;
      w > 0 && (forall j :: 0 <= j < w ==> IsSpace(line[j])) &&
      Prefix(line, m) == line[..w] + "Expenses" + [line[w + 8]] && line[w + 8] != ':' &&
      (forall j :: m.prefixEnd <= j < m.amountStart ==> IsSpace(line[j])) &&
      Amount(line, m)[0] == Yen && |Amount(line, m)| >= 2 && NoNewline(Amount(line, m)) &&
      (m.amountEnd == |line| || line[m.amountEnd] == '\n')
  {
    var w := m.prefixEnd - 9;
    forall j | 0 <= j < w ensures IsSpace(line[j]) {
      SpaceRunSpaces(line, 0, j);
    }
    assert Prefix(line, m) == line[..w] + line[w..w + 8] + [line[w + 8]];
    forall j | m.prefixEnd <= j < m.amountStart ensures IsSpace(line[j]) {
      SpaceRunSpaces(line, m.prefixEnd, j);
    }
    var a := Amount(line, m);
    forall j | 0 <= j < |a| ensures a[j] != '\n' {
      assert a[j] == line[m.amountStart + j];
      if j > 0 {
        CharFromBefore(line, m.amountStart + 1, m.amountStart + j, '\n');
      }
    }
  }

  /** `pattern.match(line)` succeeds exactly on lines of the shape
      MatchShape states: one built that way matches, with those groups. */
  lemma TagMatchOf(line: string, w: nat, p: nat, q: nat, e: nat)
    requires w > 0 && p == w + 9 && p <= q && q + 1 < e <= |line|
    requires SpaceRun(line, 0) == w && line[w..w + 8] == "Expenses" && line[w + 8] != ':'
    requires SpaceRun(line, p) == q - p && line[q] == Yen && line[q + 1] != '\n'
    requires CharFrom(line, q + 1, '\n') == e
    ensures TagMatch(line) == Some(Match(p, q, e))
  {
  }

  lemma {:induction false} AllSpaces(s: string, t: string, k: nat)
    requires k <= |s| && s[..k] == t && forall j :: 0 <= j < |t| ==> IsSpace(t[j])
    ensures forall j :: 0 <= j < k ==> IsSpace(s[j])
  {
    forall j | 0 <= j < k ensures IsSpace(s[j]) {
      assert s[..k][j] == s[j];
    }
  }

  lemma {:induction false} AllSpacesFrom(s: string, t: string, i: nat, k: nat)
    requires i <= k <= |s| && s[i..k] == t && forall j :: 0 <= j < |t| ==> IsSpace(t[j])
    ensures forall j :: i <= j < k ==> IsSpace(s[j])
  {
    forall j | i <= j < k ensures IsSpace(s[j]) {
      assert s[i..k][j - i] == s[j];
    }
  }

  lemma {:induction false} NoNewlineFrom(s: string, t: string, i: nat, k: nat)
    requires i <= k <= |s| && s[i..k] == t && NoNewline(t)
    ensures forall j :: i <= j < k ==> s[j] != '\n'
  {
    forall j | i <= j < k ensures s[j] != '\n' {
      assert s[i..k][j - i] == s[j];
    }
  }

  lemma PostingSlices(line: string, ws: string, c: char, gap: string, text: string, rest: string)
    requires line == ws + "Expenses" + [c] + gap + [Yen] + text + rest
    ensures var w := |ws|; var p := w + 9; var q := p + |gap|; var e := q + 1 + |text|;
      e <= |line| && line[..w] == ws && line[w] == 'E' && line[w..w + 8] == "Expenses" && line[w + 8] == c &&
      line[p..q] == gap && line[q] == Yen && line[q + 1..e] == text && line[e..] == rest &&
      line[..p] == ws + "Expenses" + [c] && line[q..e] == [Yen] + text
  {
  }

  /** A run of white space given as `gap` at `i`, ended by a character
      that is not white space, is what SpaceRun measures there. */
  lemma GapRun(line: string, i: nat, gap: string)
    requires i + |gap| < |line| && line[i..i + |gap|] == gap && !IsSpace(line[i + |gap|])
    requires forall j :: 0 <= j < |gap| ==> IsSpace(gap[j])
    ensures SpaceRun(line, i) == |gap|
  {
    AllSpacesFrom(line, gap, i, i + |gap|);
    SpaceRunIs(line, i, |gap|);
  }

  /** A text without `\n`, then an empty rest or a line end. */
  lemma TextRun(line: string, i: nat, text: string, rest: string)
    requires i + |text| <= |line| && line[i..i + |text|] == text && line[i + |text|..] == rest
    requires NoNewline(text) && (rest == [] || rest[0] == '\n')
    ensures CharFrom(line, i, '\n') == i + |text|
  {
    NoNewlineFrom(line, text, i, i + |text|);
    if i + |text| < |line| {
      assert line[i + |text|] == rest[0];
    }
    CharFromIs(line, i, i + |text|, '\n');
  }

  lemma PostingMatchesAt(line: string, ws: string, c: char, gap: string, text: string, rest: string)
    requires var w := |ws|; var p := w + 9; var q := p + |gap|; var e := q + 1 + |text|;
      e <= |line| && line[..w] == ws && line[w] == 'E' && line[w..w + 8] == "Expenses" && line[w + 8] == c &&
      line[p..q] == gap && line[q] == Yen && line[q + 1..e] == text && line[e..] == rest
    requires ws != [] && (forall j :: 0 <= j < |ws| ==> IsSpace(ws[j]))
    requires c != ':' && (forall j :: 0 <= j < |gap| ==> IsSpace(gap[j]))
    requires text != [] && NoNewline(text) && (rest == [] || rest[0] == '\n')
    ensures var p := |ws| + 9; var q := p + |gap|;
      TagMatch(line) == Some(Match(p, q, q + 1 + |text|))
  {
    var p := |ws| + 9;
    var q := p + |gap|;
    assert line[q + 1] == text[0];
    assert line[0..|ws|] == ws;
    GapRun(line, 0, ws);
    GapRun(line, p, gap);
    TextRun(line, q + 1, text, rest);
    TagMatchOf(line, |ws|, p, q, q + 1 + |text|);
  }

  /** A posting line built from white space `ws`, `Expenses`, a character
      `c` other than `:`, white space `gap`, `¥`, a non-empty amount text
      and an empty rest or a line end matches, with `ws + "Expenses" + [c]`
      as the replaced prefix and `¥` plus the amount text as the amount. */
  lemma PostingMatches(ws: string, c: char, gap: string, text: string, rest: string)
    requires ws != [] && (forall j :: 0 <= j < |ws| ==> IsSpace(ws[j]))
    requires c != ':' && (forall j :: 0 <= j < |gap| ==> IsSpace(gap[j]))
    requires text != [] && NoNewline(text) && (rest == [] || rest[0] == '\n')
    ensures var line := ws + "Expenses" + [c] + gap + [Yen] + text + rest;
      var p := |ws| + 9; var q := p + |gap|; var e := q + 1 + |text|;
      TagMatch(line) == Some(Match(p, q, e)) &&
      line[..p] == ws + "Expenses" + [c] && line[q..e] == [Yen] + text
  {
    var line := ws + "Expenses" + [c] + gap + [Yen] + text + rest;
    PostingSlices(line, ws, c, gap, text, rest);
    PostingMatchesAt(line, ws, c, gap, text, rest);
  }

  /** A sub-account line `  Expenses:Food ...` never matches. */
  lemma ColonNeverMatches(ws: string, rest: string)
    requires forall j :: 0 <= j < |ws| ==> IsSpace(ws[j])
    ensures TagMatch(ws + "Expenses:" + rest).None?
  {
    var line := ws + "Expenses:" + rest;
    var w := |ws|;
    assert line[..w] == ws;
    assert line[w] == 'E' && line[w + 8] == ':';
    AllSpaces(line, ws, w);
    SpaceRunIs(line, 0, w);
  }

  /** A line without a `¥` never matches. */
  lemma NoYenNeverMatches(line: string)
    requires forall j :: 0 <= j < |line| ==> line[j] != Yen
    ensures TagMatch(line).None?
  {
    if TagMatch(line).Some? {
      TagMatchAt(line);
      assert false;
    }
  }

  // ---------------------------------------------------------------------
  // The substitution

  /** String#gsub with a string pattern: every occurrence of `pat`, found
      left to right without overlap, replaced by `rep`. */
  function ReplaceAll(s: string, pat: string, rep: string): string
    requires pat != []
    decreases |s|
  {
    if |s| < |pat| then s
    else if s[..|pat|] == pat then rep + ReplaceAll(s[|pat|..], pat, rep)
    else [s[0]] + ReplaceAll(s[1..], pat, rep)
  }

  predicate OccursAt(pat: string, s: string, i: nat) {
    i + |pat| <= |s| && s[i..i + |pat|] == pat
  }

  /** `pat` occurs somewhere in `s`. */
  predicate Occurs(pat: string, s: string) {
    exists i: nat :: i <= |s| && OccursAt(pat, s, i)
  }

  /** A text that starts with the pattern has that occurrence replaced. */
  lemma ReplaceAllHead(pat: string, t: string, rep: string)
    requires pat != []
    ensures ReplaceAll(pat + t, pat, rep) == rep + ReplaceAll(t, pat, rep)
  {
    assert (pat + t)[..|pat|] == pat;
    assert (pat + t)[|pat|..] == t;
  }

  /** Where the pattern does not occur, nothing changes. */
  lemma {:induction false} ReplaceAllAbsent(s: string, pat: string, rep: string)
    requires pat != [] && !Occurs(pat, s)
    ensures ReplaceAll(s, pat, rep) == s
    decreases |s|
  {
    if |s| >= |pat| {
      assert !OccursAt(pat, s, 0);
      assert s[0..|pat|] == s[..|pat|];
      forall i: nat | i <= |s[1..]| ensures !OccursAt(pat, s[1..], i) {
        assert !OccursAt(pat, s, i + 1);
        if i + |pat| <= |s[1..]| {
          var a, b := s[i + 1..i + 1 + |pat|], s[1..][i..i + |pat|];
          assert |a| == |b| && forall k :: 0 <= k < |a| ==> a[k] == b[k];
        }
      }
      ReplaceAllAbsent(s[1..], pat, rep);
      assert [s[0]] + s[1..] == s;
    }
  }

  /** Replacing the pattern by itself gives the text back. */
  lemma {:induction false} ReplaceAllSelf(s: string, pat: string)
    requires pat != []
    ensures ReplaceAll(s, pat, pat) == s
    decreases |s|
  {
    if |s| >= |pat| {
      if s[..|pat|] == pat {
        ReplaceAllSelf(s[|pat|..], pat);
        assert s[..|pat|] + s[|pat|..] == s;
      } else {
        ReplaceAllSelf(s[1..], pat);
        assert [s[0]] + s[1..] == s;
      }
    }
  }

  /** `"  #{question.capitalize}  "`. */
  function Replacement(answer: string): string {
    "  " + Capitalize(answer) + "  "
  }

  /** One line after its prompt: unless the answer is `None`, every
      occurrence of the matched prefix becomes the capitalised answer
      between two spaces on each side; a line that does not match is kept. */
  function TagLine(line: string, answer: string): string {
    var m := TagMatch(line);
    if m.Some? && answer != "None" then ReplaceAll(line, Prefix(line, m.value), Replacement(answer)) else line
  }

  /** An answer other than `None` puts its replacement in place of the
      prefix the line starts with, and the rest of the line keeps whatever
      follows, with any later copy of the prefix replaced as well. */
  lemma TagLineReplaces(line: string, answer: string)
    requires TagMatch(line).Some? && answer != "None"
    ensures var p := TagMatch(line).value.prefixEnd;
      TagLine(line, answer) == Replacement(answer) + ReplaceAll(line[p..], line[..p], Replacement(answer))
  {
    var p := TagMatch(line).value.prefixEnd;
    assert line == line[..p] + line[p..];
    ReplaceAllHead(line[..p], line[p..], Replacement(answer));
  }

  /** In the usual case, where the prefix occurs only at the start, the
      rest of the line after the prefix is kept as it is, white space
      included. */
  lemma TagLineKeepsRest(line: string, answer: string)
    requires TagMatch(line).Some? && answer != "None"
    requires var p := TagMatch(line).value.prefixEnd; !Occurs(line[..p], line[p..])
    ensures var p := TagMatch(line).value.prefixEnd;
      TagLine(line, answer) == Replacement(answer) + line[p..]
  {
    var p := TagMatch(line).value.prefixEnd;
    TagLineReplaces(line, answer);
    ReplaceAllAbsent(line[p..], line[..p], Replacement(answer));
  }

  /** The text after the replaced prefix stays as it was. */
  lemma RetaggedRest(line: string, p: nat, answer: string)
    requires 0 < p <= |line| && !Occurs(line[..p], line[p..])
    ensures ReplaceAll(line, line[..p], Replacement(answer)) == Replacement(answer) + line[p..]
  {
    assert line == line[..p] + line[p..];
    ReplaceAllHead(line[..p], line[p..], Replacement(answer));
    ReplaceAllAbsent(line[p..], line[..p], Replacement(answer));
  }

  /** A posting line answered with anything but `None`: the line is
      white space `ws`, `Expenses`, a character `c` other than `:`, white
      space `gap`, `¥`, the amount text and an empty rest or a line end.
      The prefix up to and including `c` becomes the replacement and
      everything after it stays, the white space `gap` before the `¥`
      included, so the answer ends up followed by its two spaces plus `gap`. */
  lemma PostingRetagged(line: string, ws: string, c: char, gap: string, text: string, rest: string, answer: string)
    requires var w := |ws|; var p := w + 9; var q := p + |gap|; var e := q + 1 + |text|;
      e <= |line| && line[..w] == ws && line[w] == 'E' && line[w..w + 8] == "Expenses" && line[w + 8] == c &&
      line[p..q] == gap && line[q] == Yen && line[q + 1..e] == text && line[e..] == rest
    requires ws != [] && (forall j :: 0 <= j < |ws| ==> IsSpace(ws[j]))
    requires c != ':' && (forall j :: 0 <= j < |gap| ==> IsSpace(gap[j]))
    requires text != [] && NoNewline(text) && (rest == [] || rest[0] == '\n')
    requires answer != "None" && !Occurs(line[..|ws| + 9], line[|ws| + 9..])
    ensures TagLine(line, answer) == Replacement(answer) + line[|ws| + 9..]
  {
    PostingMatchesAt(line, ws, c, gap, text, rest);
    RetaggedRest(line, |ws| + 9, answer);
  }

  /** The documented answer: `alcohol` replaces the prefix with
      `  Alcohol  `, so `  Expenses  ¥2000`, with or without its line end,
      becomes `  Alcohol   ¥2000`, three spaces before the `¥`. */
  lemma AlcoholReplacement(line: string, rest: string)
    requires rest == [] || rest == "\n"
    requires line == "  Expenses  \U{A5}2000" + rest
    ensures TagLine(line, "alcohol") == "  Alcohol   \U{A5}2000" + rest
  {
    assert TagLine(line, "alcohol") == Replacement("alcohol") + line[11..] by {
      AlcoholPosting(line, rest);
      PostingRetagged(line, "  ", ' ', " ", "2000", rest, "alcohol");
    }
    assert line[11..] == " \U{A5}2000" + rest by {
      AlcoholPosting(line, rest);
    }
    AlcoholCapitalized();
    AlcoholText(rest);
  }

  lemma AlcoholCapitalized()
    ensures Replacement("alcohol") == "  Alcohol  "
  {
    var cap := Capitalize("alcohol");
    assert cap[0] == 'A' && cap[1] == 'l' && cap[2] == 'c' && cap[3] == 'o';
    assert cap[4] == 'h' && cap[5] == 'o' && cap[6] == 'l';
  }

  lemma AlcoholText(rest: string)
    ensures "  Alcohol  " + (" \U{A5}2000" + rest) == "  Alcohol   \U{A5}2000" + rest
  {
    assert "  Alcohol  " + " \U{A5}2000" == "  Alcohol   \U{A5}2000";
  }

  /** The posting is white space, `Expenses`, a space, a space, `¥` and
      the amount, and its prefix does not occur again. */
  lemma AlcoholPosting(line: string, rest: string)
    requires rest == [] || rest == "\n"
    requires line == "  Expenses  \U{A5}2000" + rest
    ensures |line| == 17 + |rest| && line[..2] == "  " && line[2] == 'E' && line[2..10] == "Expenses" && line[10] == ' '
    ensures line[11..12] == " " && line[12] == Yen && line[13..17] == "2000" && line[17..] == rest
    ensures !Occurs(line[..11], line[11..]) && line[11..] == " \U{A5}2000" + rest
  {
    assert line[11] == ' ';
  }

  // ---------------------------------------------------------------------
  // Newlines through the substitution

  /** Replacing a pattern by a text without line ends adds none. */
  lemma {:induction false} ReplaceAllNoNewline(s: string, pat: string, rep: string)
    requires pat != [] && NoNewline(s) && NoNewline(rep)
    ensures NoNewline(ReplaceAll(s, pat, rep))
    decreases |s|
  {
    if |s| >= |pat| {
      if s[..|pat|] == pat {
        ReplaceAllNoNewline(s[|pat|..], pat, rep);
      } else {
        ReplaceAllNoNewline(s[1..], pat, rep);
      }
    }
  }

  /** A pattern without line ends never reaches the line end at the close,
      which is copied. */
  lemma {:induction false} ReplaceAllLastNewline(t: string, pat: string, rep: string)
    requires pat != [] && NoNewline(pat)
    ensures ReplaceAll(t + "\n", pat, rep) == ReplaceAll(t, pat, rep) + "\n"
    decreases |t|
  {
    var s := t + "\n";
    if |s| >= |pat| {
      if s[..|pat|] == pat {
        assert |pat| <= |t| by {
          forall i | 0 <= i < |pat| ensures s[i] != '\n' {
            assert s[..|pat|][i] == s[i];
          }
          assert s[|t|] == '\n';
        }
        assert t[..|pat|] == pat;
        assert s[|pat|..] == t[|pat|..] + "\n";
        ReplaceAllLastNewline(t[|pat|..], pat, rep);
      } else if t == [] {
        assert ReplaceAll(s[1..], pat, rep) == [];
      } else {
        assert s[1..] == t[1..] + "\n";
        ReplaceAllLastNewline(t[1..], pat, rep);
        if |t| >= |pat| {
          assert t[..|pat|] == s[..|pat|];
        } else {
          assert ReplaceAll(t[1..], pat, rep) == t[1..];
          assert [t[0]] + t[1..] == t;
        }
      }
    }
  }

  lemma ReplacementNoNewline(answer: string)
    requires NoNewline(answer)
    ensures NoNewline(Replacement(answer))
  {
    var rep := Replacement(answer);
    forall i | 0 <= i < |rep| ensures rep[i] != '\n' {
      if 2 <= i < |rep| - 2 {
        assert rep[i] == Capitalize(answer)[i - 2];
        assert answer[i - 2] != '\n';
      }
    }
  }

  /** Replacing a pattern without line ends by a non-empty text without line
      ends keeps a line a line, with a line end exactly when it had one. */
  lemma ReplacedShaped(line: string, pat: string, rep: string)
    requires LineShaped(line) && pat != [] && NoNewline(pat) && rep != [] && NoNewline(rep)
    ensures LineShaped(ReplaceAll(line, pat, rep))
    ensures EndsInNewline(line) <==> EndsInNewline(ReplaceAll(line, pat, rep))
  {
    var out := ReplaceAll(line, pat, rep);
    assert out != [];
    if EndsInNewline(line) {
      var t := line[..|line| - 1];
      assert line == t + "\n";
      assert NoNewline(t);
      ReplaceAllLastNewline(t, pat, rep);
      ReplaceAllNoNewline(t, pat, rep);
    } else {
      ReplaceAllNoNewline(line, pat, rep);
    }
  }

  /** Tagging a line of the file with a one-line answer gives a line of the
      same kind: one line, with a line end exactly when it had one. */
  lemma TagLineShaped(line: string, answer: string)
    requires LineShaped(line) && NoNewline(answer)
    ensures LineShaped(TagLine(line, answer))
    ensures EndsInNewline(line) <==> EndsInNewline(TagLine(line, answer))
  {
    var m := TagMatch(line);
    if m.Some? && answer != "None" {
      assert NoNewline(Prefix(line, m.value)) by {
        var pre := Prefix(line, m.value);
        forall i | 0 <= i < |pre| ensures pre[i] != '\n' {
          assert pre[i] == line[i];
        }
      }
      ReplacementNoNewline(answer);
      ReplacedShaped(line, Prefix(line, m.value), Replacement(answer));
    }
  }

  // ---------------------------------------------------------------------
  // A tagged line is settled

  /** A text that starts with two spaces and then a non-space character has
      no leading run of white space that `Expenses` follows unless the text
      carries `Expenses` right there. */
  lemma RetaggedPrefix(cap: string, tail: string)
    requires cap != [] && !IsSpace(cap[0]) && !(|cap| >= 8 && cap[..8] == "Expenses")
    ensures TagMatch("  " + cap + "  " + tail).None?
  {
    var out := "  " + cap + "  " + tail;
    SpaceRunIs(out, 0, 2);
    if 10 <= |out| {
      if |cap| >= 8 {
        assert out[2..10] == cap[..8];
      } else {
        assert out[2 + |cap|] == ' ';
        assert out[2..10][|cap|] == ' ';
      }
    }
  }

  /** A line whose leading white space is followed by a character other
      than `E` does not match. */
  lemma NoExpensesAfterSpace(out: string)
    requires SpaceRun(out, 0) < |out| && out[SpaceRun(out, 0)] != 'E'
    ensures TagMatch(out).None?
  {
    var w := SpaceRun(out, 0);
    if w + 9 <= |out| {
      assert out[w..w + 8][0] == out[w];
    }
  }

  /** A replacement whose first character after its white space is not
      `E` leaves a line that does not match. */
  lemma RetaggedNoE(cap: string, tail: string)
    requires SpaceRun(cap, 0) < |cap| && cap[SpaceRun(cap, 0)] != 'E'
    ensures TagMatch("  " + cap + "  " + tail).None?
  {
    var out := "  " + cap + "  " + tail;
    var s := SpaceRun(cap, 0);
    forall j | 0 <= j < 2 + s ensures IsSpace(out[j]) {
      if j >= 2 {
        SpaceRunSpaces(cap, 0, j - 2);
      }
    }
    assert out[2 + s] == cap[s];
    SpaceRunIs(out, 0, 2 + s);
    NoExpensesAfterSpace(out);
  }

  /** A replacement that is all white space leaves a line whose white
      space runs on to the `¥` that the tail keeps. */
  lemma RetaggedBlank(cap: string, tail: string, g: nat)
    requires SpaceRun(cap, 0) == |cap|
    requires g < |tail| && (forall j :: 0 <= j < g ==> IsSpace(tail[j])) && tail[g] == Yen
    ensures TagMatch("  " + cap + "  " + tail).None?
  {
    var head := "  " + cap + "  ";
    BlankHead(cap, head);
    SpaceThrough(head, tail, g);
    NoExpensesAfterSpace(head + tail);
  }

  /** White space `head`, then `g` more characters of white space and a
      `¥`: the leading run of white space stops at that `¥`. */
  lemma SpaceThrough(head: string, tail: string, g: nat)
    requires forall j :: 0 <= j < |head| ==> IsSpace(head[j])
    requires g < |tail| && (forall j :: 0 <= j < g ==> IsSpace(tail[j])) && tail[g] == Yen
    ensures SpaceRun(head + tail, 0) == |head| + g && (head + tail)[|head| + g] == Yen
  {
    var out, n := head + tail, |head|;
    forall j | 0 <= j < n + g ensures IsSpace(out[j]) {
      if j < n {
        assert out[j] == head[j];
      } else {
        assert out[j] == tail[j - n];
      }
    }
    SpaceRunIs(out, 0, n + g);
  }

  lemma BlankHead(cap: string, head: string)
    requires SpaceRun(cap, 0) == |cap| && head == "  " + cap + "  "
    ensures forall j :: 0 <= j < |head| ==> IsSpace(head[j])
  {
    forall j | 0 <= j < |head| ensures IsSpace(head[j]) {
      if 2 <= j < 2 + |cap| {
        assert head[j] == cap[j - 2];
        SpaceRunSpaces(cap, 0, j - 2);
      }
    }
  }

  /** gsub keeps a leading run of white space and the non-space character
      after it when that character is not `E` and the pattern is white space
      and then `E`: no occurrence can start inside that run. */
  lemma {:induction false} LeadKept(r: string, pat: string, rep: string, g: nat, w: nat)
    requires g < |r| && (forall j :: 0 <= j < g ==> IsSpace(r[j])) && !IsSpace(r[g]) && r[g] != 'E'
    requires w < |pat| && (forall j :: 0 <= j < w ==> IsSpace(pat[j])) && pat[w] == 'E'
    ensures |ReplaceAll(r, pat, rep)| > g && ReplaceAll(r, pat, rep)[..g + 1] == r[..g + 1]
    decreases g
  {
    if |r| >= |pat| {
      var k := if w <= g then w else g;
      assert r[..|pat|][k] != pat[k];
    }
    if |r| >= |pat| && g > 0 {
      LeadKept(r[1..], pat, rep, g - 1, w);
      assert ReplaceAll(r, pat, rep) == [r[0]] + ReplaceAll(r[1..], pat, rep);
      assert r[..g + 1] == [r[0]] + r[1..][..g];
    }
  }

  /** After the matched prefix of a posting come white space and the `¥`,
      and the tail gsub leaves keeps them. */
  lemma TailKeepsYen(line: string, answer: string)
    requires TagMatch(line).Some?
    ensures var m := TagMatch(line).value; var p, g := m.prefixEnd, m.amountStart - m.prefixEnd;
      var tail := ReplaceAll(line[p..], line[..p], Replacement(answer));
      g < |tail| && (forall j :: 0 <= j < g ==> IsSpace(tail[j])) && tail[g] == Yen
  {
    var m := TagMatch(line).value;
    TagMatchAt(line);
    var p, q := m.prefixEnd, m.amountStart;
    var w := p - 9;
    var r, pat := line[p..], line[..p];
    forall j | 0 <= j < q - p ensures IsSpace(r[j]) {
      SpaceRunSpaces(line, p, p + j);
    }
    forall j | 0 <= j < w ensures IsSpace(pat[j]) {
      SpaceRunSpaces(line, 0, j);
    }
    assert pat[w] == line[w..w + 8][0];
    assert r[q - p] == Yen;
    YenKept(r, pat, Replacement(answer), q - p, w);
  }

  /** The leading white space and `¥` that `LeadKept` keeps, one
      character at a time. */
  lemma YenKept(r: string, pat: string, rep: string, g: nat, w: nat)
    requires g < |r| && (forall j :: 0 <= j < g ==> IsSpace(r[j])) && r[g] == Yen
    requires w < |pat| && (forall j :: 0 <= j < w ==> IsSpace(pat[j])) && pat[w] == 'E'
    ensures var tail := ReplaceAll(r, pat, rep);
      g < |tail| && (forall j :: 0 <= j < g ==> IsSpace(tail[j])) && tail[g] == Yen
  {
    LeadKept(r, pat, rep, g, w);
    var tail := ReplaceAll(r, pat, rep);
    forall j | 0 <= j <= g ensures tail[j] == r[j] {
      assert tail[j] == tail[..g + 1][j];
    }
  }

  /** A tagged posting is not offered again, unless the answer capitalises
      to a text starting with `Expenses` (tagging with `expenses` leaves a
      posting that matches once more). After the two spaces the
      replacement starts with, the first character that is not white space
      is the capitalised first letter of the answer, a lower-case letter of
      it when the answer starts with white space, or, for an answer of
      white space only, the `¥` of the amount. */
  lemma TaggedNotOffered(line: string, answer: string)
    requires TagMatch(line).Some? && answer != "None"
    requires !(|answer| >= 8 && Capitalize(answer)[..8] == "Expenses")
    ensures TagMatch(TagLine(line, answer)).None?
  {
    var p := TagMatch(line).value.prefixEnd;
    var cap := Capitalize(answer);
    var tail := ReplaceAll(line[p..], line[..p], Replacement(answer));
    TagLineReplaces(line, answer);
    assert TagLine(line, answer) == "  " + cap + "  " + tail;
    var s := SpaceRun(cap, 0);
    if s == |cap| {
      TailKeepsYen(line, answer);
      RetaggedBlank(cap, tail, TagMatch(line).value.amountStart - p);
    } else if s == 0 && cap[0] == 'E' {
      RetaggedPrefix(cap, tail);
    } else {
      assert cap[s] != 'E' by {
        if s > 0 {
          assert cap[s] == Downcase(answer[s]);
        }
      }
      RetaggedNoE(cap, tail);
    }
  }

  // ---------------------------------------------------------------------
  // The whole file

  /** The answer to prompt `k`: the one given, or the default `None`. */
  function TagAnswer(answers: seq<string>, k: nat): string {
    if k < |answers| then answers[k] else "None"
  }

  /** The indices of the lines that match, in file order: one prompt each. */
  function Matches(lines: seq<string>): (r: seq<nat>)
    ensures |r| <= |lines|
    decreases |lines|
  {
    if lines == [] then []
    else
      var n := |lines| - 1;
      Matches(lines[..n]) + (if TagMatch(lines[n]).Some? then [n] else [])
  }

  lemma MatchesStep(lines: seq<string>, n: nat)
    requires n < |lines|
    ensures Matches(lines[..n + 1]) == Matches(lines[..n]) + (if TagMatch(lines[n]).Some? then [n] else [])
  {
    assert lines[..n + 1][..n] == lines[..n];
  }

  /** Matches lists matching lines only, in increasing order. */
  lemma {:induction false} MatchesSound(lines: seq<string>)
    ensures forall j :: 0 <= j < |Matches(lines)| ==> Matches(lines)[j] < |lines| && TagMatch(lines[Matches(lines)[j]]).Some?
    ensures forall j, k :: 0 <= j < k < |Matches(lines)| ==> Matches(lines)[j] < Matches(lines)[k]
    decreases |lines|
  {
    if lines != [] {
      var n := |lines| - 1;
      var front := Matches(lines[..n]);
      MatchesSound(lines[..n]);
      forall j | 0 <= j < |front| ensures lines[front[j]] == lines[..n][front[j]] {
      }
    }
  }

  /** Matches lists every matching line: matching line `i` comes after the
      matching lines before it. */
  lemma {:induction false} MatchesComplete(lines: seq<string>, i: nat)
    requires i < |lines| && TagMatch(lines[i]).Some?
    ensures |Matches(lines[..i])| < |Matches(lines)| && Matches(lines)[|Matches(lines[..i])|] == i
    decreases |lines|
  {
    var n := |lines| - 1;
    var front := lines[..n];
    if i < n {
      MatchesComplete(front, i);
      assert front[..i] == lines[..i];
    } else {
      assert lines[..i] == front;
    }
  }

  /** Line `i` after its prompt, which is the one after those of the
      matching lines before it. */
  function TaggedLine(lines: seq<string>, answers: seq<string>, i: nat): string
    requires i < |lines|
  {
    TagLine(lines[i], TagAnswer(answers, |Matches(lines[..i])|))
  }

  /** The file's lines after tag. */
  function TaggedLines(lines: seq<string>, answers: seq<string>): seq<string> {
    seq(|lines|, i requires 0 <= i < |lines| => TaggedLine(lines, answers, i))
  }

  /** `previous` when line `i` is read: the line before it as written out,
      without its line end; empty for the first line. */
  function Previous(lines: seq<string>, answers: seq<string>, i: nat): string
    requires i <= |lines|
  {
    if i == 0 then "" else Chomp(TaggedLine(lines, answers, i - 1))
  }

  /** `"\n#{previous} #{match[2]}"`. */
  function Prompt(previous: string, amount: string): string {
    "\n" + previous + " " + amount
  }

  /** The prompt matching line `i` gets. */
  function PromptAt(lines: seq<string>, answers: seq<string>, i: nat): string
    requires i < |lines| && TagMatch(lines[i]).Some?
  {
    Prompt(Previous(lines, answers, i), Amount(lines[i], TagMatch(lines[i]).value))
  }

  /** What tag shows while it reads the first `n` lines: one prompt per
      matching line, in order. */
  function Shown(lines: seq<string>, answers: seq<string>, n: nat): seq<string>
    requires n <= |lines|
  {
    var idx := Matches(lines[..n]);
    MatchesSound(lines[..n]);
    seq(|idx|, j requires 0 <= j < |idx| => PromptAt(lines, answers, idx[j]))
  }

  /** Reading one more line shows one more prompt exactly when it matches. */
  lemma ShownStep(lines: seq<string>, answers: seq<string>, n: nat)
    requires n < |lines|
    ensures Shown(lines, answers, n + 1) ==
      Shown(lines, answers, n) + (if TagMatch(lines[n]).Some? then [PromptAt(lines, answers, n)] else [])
  {
    MatchesStep(lines, n);
  }

  /** What one turn of tag's loop needs to know about line `i`. */
  lemma TagStep(lines: seq<string>, answers: seq<string>, i: nat)
    requires i < |lines|
    ensures TaggedLines(lines, answers)[i] == TagLine(lines[i], TagAnswer(answers, |Matches(lines[..i])|))
    ensures Previous(lines, answers, i + 1) == Chomp(TaggedLines(lines, answers)[i])
    ensures TagMatch(lines[i]).Some? ==>
      PromptAt(lines, answers, i) == Prompt(Previous(lines, answers, i), Amount(lines[i], TagMatch(lines[i]).value))
  {
  }

  /** The prompt of matching line `i` is shown after one prompt per matching
      line before it. */
  lemma PromptOf(lines: seq<string>, answers: seq<string>, i: nat)
    requires i < |lines| && TagMatch(lines[i]).Some?
    ensures var shown := Shown(lines, answers, |lines|); var k := |Matches(lines[..i])|;
      k < |shown| && shown[k] == PromptAt(lines, answers, i)
  {
    MatchesComplete(lines, i);
    assert lines[..|lines|] == lines;
  }

  /** What the prompt shows: the line before as tag wrote it out, without
      its line end (the tagged version, when that line was answered), and
      the amount with its `¥`. */
  lemma PromptShows(lines: seq<string>, answers: seq<string>, i: nat)
    requires i < |lines| && TagMatch(lines[i]).Some?
    ensures PromptAt(lines, answers, i) ==
      Prompt(if i == 0 then "" else Chomp(TaggedLines(lines, answers)[i - 1]), Amount(lines[i], TagMatch(lines[i]).value))
  {
    if i > 0 {
      assert TaggedLines(lines, answers)[i - 1] == TaggedLine(lines, answers, i - 1);
    }
  }

  /** With one-line answers, the output has as many lines as the input,
      each tagged as TagLine says, and it cuts into lines exactly where the
      input did. */
  lemma TaggedLinesShape(lines: seq<string>, answers: seq<string>)
    requires Lines(lines) && forall k :: 0 <= k < |answers| ==> NoNewline(answers[k])
    ensures var out := TaggedLines(lines, answers);
      |out| == |lines| && Lines(out) && EachLine(Concat(out)) == out
  {
    var out := TaggedLines(lines, answers);
    forall i | 0 <= i < |out|
      ensures LineShaped(out[i]) && (EndsInNewline(lines[i]) ==> EndsInNewline(out[i]))
    {
      var a := TagAnswer(answers, |Matches(lines[..i])|);
      assert NoNewline(a) by {
        if |Matches(lines[..i])| >= |answers| { assert a == "None"; }
      }
      TagLineShaped(lines[i], a);
    }
    EachLineConcat(out);
  }
}
