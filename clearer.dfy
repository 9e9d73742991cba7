/** Parser#clear: the header pattern
      ((^\d{,4}-\d{,2}-\d{,2})(=\d{,4}-\d{,2}-\d{,2})?) ([^\*]+)
    written out character by character, the decision which lines are
    offered for clearing, and the rewrite of an accepted line.

    The pattern is tried on one line of the file at a time. A line holds a
    `\n` only as its last character, and Ruby's `^` does not match after a
    final `\n`, so `^` can only match at the start of the line. Backtracking
    never finds a second way to match: each `\d{,n}` must be followed by a
    `-`, `=` or space, so it has to take the whole run of digits there, and
    `[^\*]+` is the last element, so its greedy run decides the match. */
module Clearer {
  import opened Text
  import opened Wrappers
  import Tokenizer

  // ---------------------------------------------------------------------
  // The pattern

  /** Length of the run of digits that starts at `i`. */
  function DigitRun(s: string, i: nat): (n: nat)
    requires i <= |s|
    ensures i + n <= |s|
    ensures i + n < |s| ==> !IsDigit(s[i + n])
    decreases |s| - i
  {
    if i < |s| && IsDigit(s[i]) then 1 + DigitRun(s, i + 1) else 0
  }

  lemma {:induction false} DigitRunDigits(s: string, i: nat, j: nat)
    requires i <= |s| && i <= j < i + DigitRun(s, i)
    ensures IsDigit(s[j])
    decreases j - i
  {
    if j > i {
      DigitRunDigits(s, i + 1, j);
    }
  }

  /** `\d{,max}` followed by `sep`, matched at `i`: the index just past
      `sep`. The digits must be the whole run, since a shorter take would
      leave a digit where `sep` is needed. */
  function Group(s: string, i: nat, max: nat, sep: char): (e: Option<nat>)
    requires i <= |s|
    ensures e.Some? ==> i < e.value <= |s| && s[e.value - 1] == sep
  {
    var n := DigitRun(s, i);
    if n > max || i + n >= |s| || s[i + n] != sep then None else Some(i + n + 1)
  }

  /** `\d{,4}-\d{,2}-\d{,2}` matched at `i` where the next character is not
      a digit: the index just past it. A third group of more than two
      digits is refused here, since the character after `\d{,2}` would
      then be a digit where the pattern needs `=` or a space. */
  function LooseDateEnd(s: string, i: nat): (e: Option<nat>)
    requires i <= |s|
    ensures e.Some? ==> i < e.value <= |s|
  {
    var a := Group(s, i, 4, '-');
    if a.None? then None
    else
      var b := Group(s, a.value, 2, '-');
      if b.None? || DigitRun(s, b.value) > 2 then None else Some(b.value + DigitRun(s, b.value))
  }

  /** A whole text of the shape `\d{,4}-\d{,2}-\d{,2}`: up to four
      digits, `-`, up to two digits, `-`, up to two digits. */
  predicate LooseDate(t: string) {
    exists i, j :: 0 <= i < j < |t| && i <= 4 && j - i - 1 <= 2 && |t| - j - 1 <= 2 &&
      t[i] == '-' && t[j] == '-' && forall k :: 0 <= k < |t| && k != i && k != j ==> IsDigit(t[k])
  }

  /** `s[i..e]` is a loose date when it has `-` at `a - 1` and `b - 1`,
      short enough runs between them, and digits everywhere else. */
  lemma LooseDateCut(s: string, i: nat, a: nat, b: nat, e: nat)
    requires i < a < b <= e <= |s| && a - i - 1 <= 4 && b - a - 1 <= 2 && e - b <= 2
    requires s[a - 1] == '-' && s[b - 1] == '-'
    requires forall k :: i <= k < e && k != a - 1 && k != b - 1 ==> IsDigit(s[k])
    ensures LooseDate(s[i..e])
  {
    var t := s[i..e];
    forall k | 0 <= k < |t| && k != a - 1 - i && k != b - 1 - i ensures IsDigit(t[k]) {
      assert t[k] == s[i + k];
    }
    assert t[a - 1 - i] == '-' && t[b - 1 - i] == '-';
  }

  /** What LooseDateEnd accepts is a loose date. */
  lemma LooseDateEndShape(s: string, i: nat, e: nat)
    requires i <= |s| && LooseDateEnd(s, i) == Some(e)
    ensures e <= |s| && LooseDate(s[i..e])
  {
    var a := i + DigitRun(s, i) + 1;
    var b := a + DigitRun(s, a) + 1;
    assert e == b + DigitRun(s, b);
    forall k | i <= k < e && k != a - 1 && k != b - 1 ensures IsDigit(s[k]) {
      if k < a - 1 {
        DigitRunDigits(s, i, k);
      } else if k < b - 1 {
        DigitRunDigits(s, a, k);
      } else {
        DigitRunDigits(s, b, k);
      }
    }
    LooseDateCut(s, i, a, b, e);
  }

  /** What a successful match captures: the entry date (group 2), the
      effective date without its `=` (group 3), the text after the space up
      to the first `*` (group 4), and what follows the match. */
  datatype Header = Header(date: string, effective: Option<string>, back: string, rest: string)

  /** Group 1: the date token as written, `date` or `date=effective`. */
  function Front(h: Header): string {
    if h.effective.Some? then h.date + "=" + h.effective.value else h.date
  }

  predicate NoStar(s: string) {
    forall i :: 0 <= i < |s| ==> s[i] != '*'
  }

  /** Where group 2 and group 1 end when the token part of the pattern
      matches at the start of `line`. */
  function TokenEnds(line: string): (t: Option<(nat, nat)>)
    ensures t.Some? ==> 0 < t.value.0 <= t.value.1 <= |line|
    ensures t.Some? && t.value.0 < t.value.1 ==> line[t.value.0] == '='
  {
    var d := LooseDateEnd(line, 0);
    if d.None? then None
    else if d.value < |line| && line[d.value] == '=' then
      var e := LooseDateEnd(line, d.value + 1);
      if e.None? then None else Some((d.value, e.value))
    else Some((d.value, d.value))
  }

  /** The date and the effective date that TokenEnds finds are loose
      dates. */
  lemma TokenDates(line: string)
    requires TokenEnds(line).Some?
    ensures var t := TokenEnds(line).value;
      LooseDate(line[..t.0]) && (t.0 < t.1 ==> LooseDate(line[t.0 + 1..t.1]))
  {
    TokenDate(line);
    if TokenEnds(line).value.0 < TokenEnds(line).value.1 {
      TokenEffective(line);
    }
  }

  lemma TokenDate(line: string)
    requires TokenEnds(line).Some?
    ensures LooseDate(line[..TokenEnds(line).value.0])
  {
    var d := TokenEnds(line).value.0;
    assert LooseDateEnd(line, 0) == Some(d);
    assert line[0..d] == line[..d];
    LooseDateEndShape(line, 0, d);
  }

  lemma TokenEffective(line: string)
    requires TokenEnds(line).Some? && TokenEnds(line).value.0 < TokenEnds(line).value.1
    ensures LooseDate(line[TokenEnds(line).value.0 + 1..TokenEnds(line).value.1])
  {
    var t := TokenEnds(line).value;
    assert LooseDateEnd(line, t.0 + 1) == Some(t.1);
    LooseDateEndShape(line, t.0 + 1, t.1);
  }

  /** Where a match of the pattern ends its groups: group 2 (the entry
      date) at `dateEnd`, group 1 (the whole token) at `tokenEnd`, and
      group 4 (the text after the space) at `backEnd`. */
  datatype Match = Match(dateEnd: nat, tokenEnd: nat, backEnd: nat)

  predicate WithinLine(line: string, m: Match) {
    m.dateEnd <= m.tokenEnd && m.tokenEnd + 1 < m.backEnd <= |line|
  }

  /** `pattern.match(line)`: the token part, one space, then the longest
      non-empty run of characters other than `*`. */
  function ClearMatch(line: string): (m: Option<Match>)
    ensures m.Some? ==> WithinLine(line, m.value)
  {
    var t := TokenEnds(line);
    if t.Some? && t.value.1 + 1 < |line| && line[t.value.1] == ' ' && line[t.value.1 + 1] != '*'
    then Some(Match(t.value.0, t.value.1, CharFrom(line, t.value.1 + 1, '*')))
    else None
  }

  /** The captured texts of a match, and the rest of the line after it. */
  function Groups(line: string, m: Match): Header
    requires WithinLine(line, m)
  {
    Header(line[..m.dateEnd],
           if m.dateEnd == m.tokenEnd then None else Some(line[m.dateEnd + 1..m.tokenEnd]),
           line[m.tokenEnd + 1..m.backEnd], line[m.backEnd..])
  }

  /** What a match guarantees about the characters around its groups. */
  predicate MatchAt(line: string, m: Match) {
    WithinLine(line, m) && line[m.tokenEnd] == ' ' && line[m.tokenEnd + 1] != '*' &&
    (m.dateEnd < m.tokenEnd ==> line[m.dateEnd] == '=') &&
    m.backEnd == CharFrom(line, m.tokenEnd + 1, '*')
  }

  lemma ClearMatchAt(line: string)
    requires ClearMatch(line).Some?
    ensures MatchAt(line, ClearMatch(line).value)
  {
  }

  lemma GroupsSplit(line: string, m: Match)
    requires MatchAt(line, m)
    ensures var h := Groups(line, m);
      |Front(h)| == m.tokenEnd && line == Front(h) + " " + h.back + h.rest
  {
    var h := Groups(line, m);
    var d, f, k := m.dateEnd, m.tokenEnd, m.backEnd;
    assert Front(h) == line[..f] by {
      if d < f {
        assert line[..f] == line[..d] + "=" + line[d + 1..f];
      }
    }
    assert line == line[..f] + " " + line[f + 1..k] + line[k..];
  }

  lemma GroupsBack(line: string, m: Match)
    requires MatchAt(line, m)
    ensures var h := Groups(line, m);
      h.back != [] && NoStar(h.back) && (h.rest == [] || h.rest[0] == '*')
  {
    var h := Groups(line, m);
    forall i | 0 <= i < |h.back| ensures h.back[i] != '*' {
      assert h.back[i] == line[m.tokenEnd + 1 + i];
      CharFromBefore(line, m.tokenEnd + 1, m.tokenEnd + 1 + i, '*');
    }
  }

  /** A match splits the line into the token, one space, a non-empty run
      without `*`, and a remainder that is empty or starts at a `*`; the
      token is a loose date, optionally followed by `=` and another. */
  lemma ClearMatchShape(line: string, m: Match)
    requires ClearMatch(line) == Some(m)
    ensures var h := Groups(line, m);
      |Front(h)| == m.tokenEnd && line == Front(h) + " " + h.back + h.rest &&
      h.back != [] && NoStar(h.back) && (h.rest == [] || h.rest[0] == '*')
    ensures var h := Groups(line, m);
      LooseDate(h.date) && (h.effective.Some? ==> LooseDate(h.effective.value))
  {
    ClearMatchAt(line);
    GroupsSplit(line, m);
    GroupsBack(line, m);
    assert (m.dateEnd, m.tokenEnd) == TokenEnds(line).value;
    TokenDates(line);
  }

  /** A `YYYY-MM-DD` token as Ruby's Date#to_s writes it. */
  predicate Token(t: string) {
    |t| == 10 && Tokenizer.DateAt(t, 0)
  }

  lemma DigitRunIs(s: string, i: nat, n: nat)
    requires i + n <= |s|
    requires forall j :: i <= j < i + n ==> IsDigit(s[j])
    requires i + n < |s| ==> !IsDigit(s[i + n])
    ensures DigitRun(s, i) == n
    decreases n
  {
    if n > 0 {
      DigitRunIs(s, i + 1, n - 1);
    }
  }

  /** A well-formed token followed by a non-digit takes exactly its ten
      characters. */
  lemma LooseDateEndOfToken(s: string, i: nat)
    requires i + 10 <= |s| && Tokenizer.DateAt(s, i)
    requires i + 10 < |s| ==> !IsDigit(s[i + 10])
    ensures LooseDateEnd(s, i) == Some(i + 10)
  {
    DigitRunIs(s, i, 4);
    assert Group(s, i, 4, '-') == Some(i + 5);
    DigitRunIs(s, i + 5, 2);
    assert Group(s, i + 5, 2, '-') == Some(i + 8);
    DigitRunIs(s, i + 8, 2);
  }

  lemma TokenAt(t: string, s: string, i: nat)
    requires Token(t) && i + 10 <= |s| && s[i..i + 10] == t
    ensures Tokenizer.DateAt(s, i)
  {
    assert forall j :: 0 <= j < 10 ==> s[i + j] == t[j];
  }

  /** The token part of a line that starts with a well-formed token, or
      two joined by `=`, and then a space ends after that token. */
  lemma TokenEndsOfFront(h: Header, line: string)
    requires Token(h.date) && (h.effective.Some? ==> Token(h.effective.value))
    requires |Front(h)| < |line| && line[..|Front(h)|] == Front(h) && line[|Front(h)|] == ' '
    ensures TokenEnds(line) == Some((10, |Front(h)|))
  {
    assert line[..10] == h.date;
    TokenAt(h.date, line, 0);
    LooseDateEndOfToken(line, 0);
    if h.effective.Some? {
      var e := h.effective.value;
      assert line[10] == '=';
      assert line[11..21] == e;
      TokenAt(e, line, 11);
      LooseDateEndOfToken(line, 11);
    }
  }

  lemma GroupsOfHeader(h: Header, line: string, k: nat)
    requires line == Front(h) + " " + h.back + h.rest && k == |Front(h)| + 1 + |h.back|
    requires |h.date| <= |Front(h)| && (h.effective.Some? ==> |Front(h)| == |h.date| + 1 + |h.effective.value|)
    requires h.effective.None? ==> |Front(h)| == |h.date|
    requires h.back != []
    ensures Groups(line, Match(|h.date|, |Front(h)|, k)) == h
  {
    var f := |Front(h)|;
    assert line[f + 1..k] == h.back;
    assert line[k..] == h.rest;
    assert line[..|h.date|] == h.date;
    if h.effective.Some? {
      assert line[|h.date| + 1..f] == h.effective.value;
    }
  }

  lemma HeaderBack(h: Header, line: string, k: nat)
    requires line == Front(h) + " " + h.back + h.rest && k == |Front(h)| + 1 + |h.back|
    requires h.back != [] && NoStar(h.back) && (h.rest == [] || h.rest[0] == '*')
    ensures |Front(h)| + 1 < |line| && line[|Front(h)|] == ' ' && line[|Front(h)| + 1] != '*'
    ensures CharFrom(line, |Front(h)| + 1, '*') == k
  {
    var f := |Front(h)|;
    assert line[f + 1..k] == h.back;
    assert line[k..] == h.rest;
    assert forall j :: f + 1 <= j < k ==> line[j] == h.back[j - f - 1];
    CharFromIs(line, f + 1, k, '*');
  }

  lemma ClearMatchOf(line: string, d: nat, f: nat, k: nat)
    requires TokenEnds(line) == Some((d, f)) && f + 1 < |line| && line[f] == ' ' && line[f + 1] != '*'
    requires CharFrom(line, f + 1, '*') == k
    ensures ClearMatch(line) == Some(Match(d, f, k))
  {
  }

  /** Every header written with well-formed tokens matches, and the match
      captures exactly its parts: with ClearMatchShape, the pattern accepts
      a line of such tokens exactly when it has this form. */
  lemma ClearMatchHeader(h: Header)
    requires Token(h.date) && (h.effective.Some? ==> Token(h.effective.value))
    requires h.back != [] && NoStar(h.back) && (h.rest == [] || h.rest[0] == '*')
    ensures var line := Front(h) + " " + h.back + h.rest;
      ClearMatch(line).Some? && Groups(line, ClearMatch(line).value) == h
  {
    var line := Front(h) + " " + h.back + h.rest;
    var f := |Front(h)|;
    var k := f + 1 + |h.back|;
    assert line[..f] == Front(h);
    TokenEndsOfFront(h, line);
    HeaderBack(h, line, k);
    GroupsOfHeader(h, line, k);
    ClearMatchOf(line, 10, f, k);
  }

  // ---------------------------------------------------------------------
  // The rewrite of an accepted line

  /** `"#{front} * #{back}"` put in place of the match. */
  function Rewrite(h: Header): string {
    Front(h) + " * " + h.back + h.rest
  }

  lemma CharOfPrefix(s: string, t: string, n: nat, j: nat)
    requires n <= |s| && n <= |t| && s[..n] == t[..n] && j < n
    ensures s[j] == t[j]
  {
    assert s[..n][j] == t[..n][j];
  }

  /** A run of digits that ends before `n` is the same in both strings. */
  lemma {:induction false} DigitRunPrefix(s: string, t: string, i: nat, n: nat)
    requires i <= |s| && i <= |t| && n <= |s| && n <= |t| && s[..n] == t[..n]
    requires i + DigitRun(s, i) < n
    ensures DigitRun(t, i) == DigitRun(s, i)
    decreases |s| - i
  {
    CharOfPrefix(s, t, n, i);
    if IsDigit(s[i]) {
      DigitRunPrefix(s, t, i + 1, n);
    }
  }

  lemma GroupPrefix(s: string, t: string, i: nat, max: nat, sep: char, n: nat)
    requires i <= |s| && i <= |t| && n <= |s| && n <= |t| && s[..n] == t[..n]
    requires Group(s, i, max, sep).Some? && Group(s, i, max, sep).value <= n
    ensures Group(t, i, max, sep) == Group(s, i, max, sep)
  {
    DigitRunPrefix(s, t, i, n);
    CharOfPrefix(s, t, n, i + DigitRun(s, i));
  }

  /** The token part reads nothing past the character after it. */
  lemma LooseDateEndPrefix(s: string, t: string, i: nat, n: nat)
    requires i <= |s| && i <= |t| && n <= |s| && n <= |t| && s[..n] == t[..n]
    requires LooseDateEnd(s, i).Some? && LooseDateEnd(s, i).value < n
    ensures LooseDateEnd(t, i) == LooseDateEnd(s, i)
  {
    var a := Group(s, i, 4, '-').value;
    GroupPrefix(s, t, i, 4, '-', n);
    GroupPrefix(s, t, a, 2, '-', n);
    DigitRunPrefix(s, t, Group(s, a, 2, '-').value, n);
  }

  lemma TokenEndsPrefix(s: string, t: string, n: nat)
    requires n <= |s| && n <= |t| && s[..n] == t[..n]
    requires TokenEnds(s).Some? && TokenEnds(s).value.1 < n
    ensures TokenEnds(t) == TokenEnds(s)
  {
    var d := LooseDateEnd(s, 0).value;
    LooseDateEndPrefix(s, t, 0, n);
    CharOfPrefix(s, t, n, d);
    if s[d] == '=' {
      LooseDateEndPrefix(s, t, d + 1, n);
    }
  }

  lemma InsertStar(line: string, front: string, back: string, rest: string)
    requires line == front + " " + back + rest
    ensures front + " * " + back + rest == line[..|front| + 1] + "* " + line[|front| + 1..]
  {
    assert line[..|front| + 1] == front + " ";
    assert line[|front| + 1..] == back + rest;
  }

  /** With `* ` put right after the token part and its space, the token
      part still ends where it did. */
  lemma StarredTokenEnds(line: string, r: string, f: nat)
    requires TokenEnds(line).Some? && TokenEnds(line).value.1 == f && f + 1 <= |line|
    requires r == line[..f + 1] + "* " + line[f + 1..]
    ensures TokenEnds(r) == TokenEnds(line) && f + 1 < |r| && r[f + 1] == '*'
  {
    assert r[..f + 1] == line[..f + 1];
    TokenEndsPrefix(line, r, f + 1);
  }

  /** The character after the token part and its space is `*`, which the
      pattern refuses. */
  lemma StarredNoMatch(r: string, f: nat)
    requires TokenEnds(r).Some? && TokenEnds(r).value.1 == f && f + 1 < |r| && r[f + 1] == '*'
    ensures ClearMatch(r).None?
  {
  }

  lemma RewriteAt(line: string, m: Match)
    requires MatchAt(line, m)
    ensures Rewrite(Groups(line, m)) == line[..m.tokenEnd + 1] + "* " + line[m.tokenEnd + 1..]
  {
    var h := Groups(line, m);
    GroupsSplit(line, m);
    InsertStar(line, Front(h), h.back, h.rest);
  }

  /** Accepting a line inserts `* ` right after `<token> ` and changes
      nothing else. */
  lemma RewriteInserts(line: string, m: Match)
    requires ClearMatch(line) == Some(m)
    ensures Rewrite(Groups(line, m)) == line[..m.tokenEnd + 1] + "* " + line[m.tokenEnd + 1..]
  {
    ClearMatchAt(line);
    RewriteAt(line, m);
  }

  lemma TokenEndsOfMatch(line: string)
    requires ClearMatch(line).Some?
    ensures TokenEnds(line) == Some((ClearMatch(line).value.dateEnd, ClearMatch(line).value.tokenEnd))
  {
  }

  lemma StarredLineNoMatch(line: string, r: string, f: nat)
    requires TokenEnds(line).Some? && TokenEnds(line).value.1 == f && f + 1 <= |line|
    requires r == line[..f + 1] + "* " + line[f + 1..]
    ensures ClearMatch(r).None?
  {
    StarredTokenEnds(line, r, f);
    StarredNoMatch(r, f);
  }

  /** An accepted line no longer matches the pattern, so it is never
      offered or marked again. */
  lemma RewriteNoMatch(line: string, m: Match)
    requires ClearMatch(line) == Some(m)
    ensures ClearMatch(Rewrite(Groups(line, m))).None?
  {
    var f := m.tokenEnd;
    var r := Rewrite(Groups(line, m));
    assert TokenEnds(line).Some? && TokenEnds(line).value.1 == f && f + 1 <= |line| by {
      TokenEndsOfMatch(line);
    }
    assert r == line[..f + 1] + "* " + line[f + 1..] by {
      RewriteInserts(line, m);
    }
    StarredLineNoMatch(line, r, f);
  }

  // ---------------------------------------------------------------------
  // Which lines are offered, and what becomes of them

  /** `match && Date.today >= effective_date`, where a header without an
      effective date takes today's date and so always qualifies. Dates are
      compared as their `YYYY-MM-DD` texts, whose order is the calendar
      order. */
  predicate Candidate(line: string, today: string) {
    var m := ClearMatch(line);
    m.Some? && (Groups(line, m.value).effective.None? || LexLe(Groups(line, m.value).effective.value, today))
  }

  /** `question.match?(/y/i)`: the answer holds a `y` or a `Y`. */
  predicate Affirmative(answer: string) {
    exists i :: 0 <= i < |answer| && (answer[i] == 'y' || answer[i] == 'Y')
  }

  /** The reply to the `k`-th prompt; when the user gives none, `ask` falls
      back to its default `No`. */
  function Answer(answers: seq<string>, k: nat): string {
    if k < |answers| then answers[k] else "No"
  }

  /** One line after its prompt: an accepted candidate is rewritten, any
      other line is kept as it is. */
  function ClearLine(line: string, today: string, answer: string): string {
    if Candidate(line, today) && Affirmative(answer) then Rewrite(Groups(line, ClearMatch(line).value)) else line
  }

  /** The lines offered for clearing, in file order: one prompt each. */
  function Offered(lines: seq<string>, today: string): seq<string> {
    if lines == [] then []
    else if Candidate(lines[|lines| - 1], today) then Offered(lines[..|lines| - 1], today) + [lines[|lines| - 1]]
    else Offered(lines[..|lines| - 1], today)
  }

  /** The file's lines after clear: line `i` is decided by the answer to the
      prompt it gets, which is the one after those of the lines before it. */
  function ClearedLines(lines: seq<string>, today: string, answers: seq<string>): seq<string> {
    seq(|lines|, i requires 0 <= i < |lines| => ClearLine(lines[i], today, Answer(answers, |Offered(lines[..i], today)|)))
  }

  /** `s` with `* ` inserted at `n`. */
  lemma InsertedStar(s: string, n: nat, out: string)
    requires n < |s| && out == s[..n] + "* " + s[n..]
    ensures out != s
    ensures LineShaped(s) ==> LineShaped(out)
    ensures EndsInNewline(s) ==> EndsInNewline(out)
  {
    assert |out| == |s| + 2;
    assert out[|out| - 1] == s[|s| - 1];
    if LineShaped(s) {
      forall i | 0 <= i < |out| - 1 ensures out[i] != '\n' {
        if i < n { assert out[i] == s[i]; }
        else if i >= n + 2 { assert out[i] == s[i - 2]; }
      }
    }
  }

  /** A line changes exactly when it is a candidate and the answer to its
      prompt says yes, and then `* ` is inserted right after `<token> `. */
  lemma ClearLineChanges(line: string, today: string, answer: string)
    ensures ClearLine(line, today, answer) != line <==> Candidate(line, today) && Affirmative(answer)
    ensures ClearLine(line, today, answer) != line ==>
      var n := ClearMatch(line).value.tokenEnd + 1;
      n < |line| && ClearLine(line, today, answer) == line[..n] + "* " + line[n..]
  {
    if Candidate(line, today) && Affirmative(answer) {
      var m := ClearMatch(line).value;
      RewriteInserts(line, m);
      InsertedStar(line, m.tokenEnd + 1, Rewrite(Groups(line, m)));
    }
  }

  /** A cleared line is not a candidate any more: a line of the output is
      offered by a second run only if this run left it as it was. */
  lemma ClearLineSettles(line: string, today: string, answer: string)
    ensures Candidate(ClearLine(line, today, answer), today) <==>
            Candidate(line, today) && ClearLine(line, today, answer) == line
  {
    if Candidate(line, today) && Affirmative(answer) {
      RewriteNoMatch(line, ClearMatch(line).value);
      ClearLineChanges(line, today, answer);
    }
  }

  /** Inserting `* ` keeps a line a line: the output cuts into lines at the
      same places as the input. */
  lemma ClearLineShaped(line: string, today: string, answer: string)
    requires LineShaped(line)
    ensures LineShaped(ClearLine(line, today, answer))
    ensures EndsInNewline(line) ==> EndsInNewline(ClearLine(line, today, answer))
  {
    if Candidate(line, today) && Affirmative(answer) {
      var m := ClearMatch(line).value;
      RewriteInserts(line, m);
      InsertedStar(line, m.tokenEnd + 1, Rewrite(Groups(line, m)));
    }
  }

  /** A header with well-formed tokens is offered exactly when it has no
      effective date or its effective date is not after today. */
  lemma HeaderCandidate(h: Header, today: string)
    requires Token(h.date) && (h.effective.Some? ==> Token(h.effective.value))
    requires h.back != [] && NoStar(h.back) && (h.rest == [] || h.rest[0] == '*')
    ensures Candidate(Front(h) + " " + h.back + h.rest, today) <==>
            h.effective.None? || LexLe(h.effective.value, today)
  {
    ClearMatchHeader(h);
  }

  /** A prompt left unanswered takes the default `No`, which declines. */
  lemma DefaultDeclines(answers: seq<string>, k: nat)
    requires k >= |answers|
    ensures !Affirmative(Answer(answers, k))
  {
    var a := Answer(answers, k);
    assert a == "No";
    forall i | 0 <= i < |a| ensures a[i] != 'y' && a[i] != 'Y' {
    }
  }

  lemma OfferedStep(lines: seq<string>, i: nat, today: string)
    requires i < |lines|
    ensures Offered(lines[..i + 1], today) ==
      if Candidate(lines[i], today) then Offered(lines[..i], today) + [lines[i]] else Offered(lines[..i], today)
  {
    assert lines[..i + 1][..i] == lines[..i];
  }

  /** Every offered line is a candidate, and no more prompts are shown than
      the file has lines. */
  lemma {:induction false} OfferedCandidates(lines: seq<string>, today: string)
    ensures |Offered(lines, today)| <= |lines|
    ensures forall x :: x in Offered(lines, today) ==> Candidate(x, today)
  {
    if lines != [] {
      OfferedCandidates(lines[..|lines| - 1], today);
    }
  }

  /** The output has as many lines as the input, each decided as ClearLine
      says, and it cuts into lines exactly where the input did. */
  lemma ClearedLinesShape(lines: seq<string>, today: string, answers: seq<string>)
    requires Lines(lines)
    ensures var out := ClearedLines(lines, today, answers);
      |out| == |lines| && Lines(out) && EachLine(Concat(out)) == out
  {
    var out := ClearedLines(lines, today, answers);
    forall i | 0 <= i < |out|
      ensures LineShaped(out[i]) && (EndsInNewline(lines[i]) ==> EndsInNewline(out[i]))
    {
      ClearLineShaped(lines[i], today, Answer(answers, |Offered(lines[..i], today)|));
    }
    EachLineConcat(out);
  }

  /** After a run, a line is still offered only if it was offered this run
      and declined: cleared lines are never offered or marked again. */
  lemma ClearedSettles(lines: seq<string>, today: string, answers: seq<string>)
    ensures var out := ClearedLines(lines, today, answers);
      forall i :: 0 <= i < |lines| ==>
        (Candidate(out[i], today) <==> Candidate(lines[i], today) && out[i] == lines[i])
  {
    var out := ClearedLines(lines, today, answers);
    forall i | 0 <= i < |lines|
      ensures Candidate(out[i], today) <==> Candidate(lines[i], today) && out[i] == lines[i]
    {
      ClearLineSettles(lines[i], today, Answer(answers, |Offered(lines[..i], today)|));
    }
  }
}
