/** Character classes and the few Ruby String operations the ledger engine
    relies on (each_line, chomp, capitalize, comparison), over strings of
    Unicode characters. */
module Text {

  /** `\d` in a Ruby regular expression: an ASCII digit. */
  predicate IsDigit(c: char) {
    '0' <= c <= '9'
  }

  /** `\s` in a Ruby regular expression: space, tab, line feed, vertical tab,
      form feed, carriage return. */
  predicate IsSpace(c: char) {
    c == ' ' || c == '\t' || c == '\n' || c == '\U{B}' || c == '\U{C}' || c == '\r'
  }

  /** The characters String#strip removes: `\s` and NUL. */
  predicate IsStripSpace(c: char) {
    IsSpace(c) || c == '\0'
  }

  /** The first `c` at or after `i`, or the end of `s`. */
  function CharFrom(s: string, i: nat, c: char): (k: nat)
    requires i <= |s|
    ensures i <= k <= |s|
    ensures k < |s| ==> s[k] == c
    decreases |s| - i
  {
    if i == |s| || s[i] == c then i else CharFrom(s, i + 1, c)
  }

  lemma {:induction false} CharFromBefore(s: string, i: nat, j: nat, c: char)
    requires i <= |s| && i <= j < CharFrom(s, i, c)
    ensures s[j] != c
    decreases j - i
  {
    if j > i {
      CharFromBefore(s, i + 1, j, c);
    }
  }

  lemma {:induction false} CharFromIs(s: string, i: nat, k: nat, c: char)
    requires i <= k <= |s|
    requires forall j :: i <= j < k ==> s[j] != c
    requires k < |s| ==> s[k] == c
    ensures CharFrom(s, i, c) == k
    decreases k - i
  {
    if i < k {
      CharFromIs(s, i + 1, k, c);
    }
  }

  /** Concatenation of a sequence of strings. */
  function Concat(parts: seq<string>): string {
    if parts == [] then "" else parts[0] + Concat(parts[1..])
  }

  lemma {:induction false} ConcatAppend(parts: seq<string>, last: string)
    ensures Concat(parts + [last]) == Concat(parts) + last
  {
    if parts == [] {
      assert parts + [last] == [last];
    } else {
      assert (parts + [last])[1..] == parts[1..] + [last];
      ConcatAppend(parts[1..], last);
    }
  }

  /** The records joined with one `\n` between neighbours. */
  function JoinLines(rs: seq<string>): string {
    if |rs| == 0 then "" else if |rs| == 1 then rs[0] else rs[0] + "\n" + JoinLines(rs[1..])
  }

  lemma JoinLinesCons(r: string, rest: seq<string>)
    ensures JoinLines([r] + rest) == if rest == [] then r else r + "\n" + JoinLines(rest)
  {
    assert ([r] + rest)[1..] == rest;
  }

  // ---------------------------------------------------------------------
  // String#each_line with the default separator

  /** A piece of text as each_line yields it: non-empty, and a `\n` can only
      be its last character. */
  predicate LineShaped(l: string) {
    |l| > 0 && forall i :: 0 <= i < |l| - 1 ==> l[i] != '\n'
  }

  predicate NoNewline(s: string) {
    forall i :: 0 <= i < |s| ==> s[i] != '\n'
  }

  predicate EndsInNewline(l: string) {
    |l| > 0 && l[|l| - 1] == '\n'
  }

  /** A sequence of pieces that each_line could have produced: all shaped,
      and every piece but the last ends in `\n`. */
  predicate Lines(ls: seq<string>) {
    (forall i :: 0 <= i < |ls| ==> LineShaped(ls[i])) &&
    (forall i :: 0 <= i < |ls| - 1 ==> EndsInNewline(ls[i]))
  }

  /** Length of the first line of `s`, its `\n` included. */
  function LineEnd(s: string): (k: nat)
    requires s != []
    ensures 0 < k <= |s|
    ensures forall i :: 0 <= i < k - 1 ==> s[i] != '\n'
    ensures k < |s| ==> s[k - 1] == '\n'
  {
    if s[0] == '\n' || |s| == 1 then 1 else 1 + LineEnd(s[1..])
  }

  /** The first line ends where the first `\n` is. */
  lemma {:induction false} LineEndAt(s: string, n: nat)
    requires 0 < n <= |s|
    requires forall i :: 0 <= i < n - 1 ==> s[i] != '\n'
    requires n < |s| ==> s[n - 1] == '\n'
    ensures LineEnd(s) == n
  {
    if n > 1 {
      LineEndAt(s[1..], n - 1);
    }
  }

  /** String#each_line: the text cut after every `\n`; a last line without
      a terminator is still a line, and empty text has no lines. */
  function EachLine(s: string): (ls: seq<string>)
    ensures Concat(ls) == s
    ensures Lines(ls)
    decreases |s|
  {
    if s == [] then []
    else
      var k := LineEnd(s);
      assert s[..k] + s[k..] == s;
      [s[..k]] + EachLine(s[k..])
  }

  /** Cutting the concatenation of well-formed lines gives those lines back. */
  lemma {:induction false} EachLineConcat(ls: seq<string>)
    requires Lines(ls)
    ensures EachLine(Concat(ls)) == ls
  {
    if ls != [] {
      var s := Concat(ls);
      var l := ls[0];
      assert s == l + Concat(ls[1..]);
      var k := LineEnd(s);
      if |ls| == 1 {
        assert Concat(ls[1..]) == "";
      }
      assert s[..|l|] == l;
      LineEndAt(s, |l|);
      assert s[..k] == l;
      assert s[k..] == Concat(ls[1..]);
      assert Lines(ls[1..]) by {
        forall i | 0 <= i < |ls[1..]| ensures LineShaped(ls[1..][i]) {
          assert ls[1..][i] == ls[i + 1];
        }
        forall i | 0 <= i < |ls[1..]| - 1 ensures EndsInNewline(ls[1..][i]) {
          assert ls[1..][i] == ls[i + 1];
        }
      }
      EachLineConcat(ls[1..]);
    }
  }

  // ---------------------------------------------------------------------
  // Small String methods

  /** String#chomp with the default separator: drops one trailing `\r\n`,
      `\n` or `\r`. */
  function Chomp(s: string): (r: string)
    ensures r == s || (|s| > 0 && r + [s[|s| - 1]] == s) || (|s| > 1 && r + "\r\n" == s)
  {
    if |s| >= 2 && s[|s| - 2..] == "\r\n" then s[..|s| - 2]
    else if |s| >= 1 && (s[|s| - 1] == '\n' || s[|s| - 1] == '\r') then s[..|s| - 1]
    else s
  }

  function Upcase(c: char): (d: char)
    ensures 'a' <= c <= 'z' ==> 'A' <= d <= 'Z' && d as int == c as int - 32
    ensures !('a' <= c <= 'z') ==> d == c
  {
    if 'a' <= c <= 'z' then (c as int - 32) as char else c
  }

  function Downcase(c: char): (d: char)
    ensures 'A' <= c <= 'Z' ==> 'a' <= d <= 'z' && d as int == c as int + 32
    ensures !('A' <= c <= 'Z') ==> d == c
  {
    if 'A' <= c <= 'Z' then (c as int + 32) as char else c
  }

  /** String#capitalize on ASCII letters: first character upper case, the
      rest lower case; everything else kept. */
  function Capitalize(s: string): (r: string)
    ensures |r| == |s|
    ensures |s| > 0 ==> r[0] == Upcase(s[0])
    ensures forall i :: 0 < i < |s| ==> r[i] == Downcase(s[i])
  {
    if s == [] then [] else [Upcase(s[0])] + seq(|s| - 1, i requires 0 <= i < |s| - 1 => Downcase(s[i + 1]))
  }

  // ---------------------------------------------------------------------
  // String comparison

  /** `a <= b` for Ruby strings: lexicographic on characters, a proper prefix
      first. Ruby compares UTF-8 bytes, whose order is the order of the code
      points they encode, so comparing characters gives the same answer. */
  predicate LexLe(a: string, b: string) {
    |a| == 0 || (|b| > 0 && (a[0] < b[0] || (a[0] == b[0] && LexLe(a[1..], b[1..]))))
  }

  lemma {:induction false} LexLeTotal(a: string, b: string)
    ensures LexLe(a, b) || LexLe(b, a)
  {
    if |a| > 0 && |b| > 0 && a[0] == b[0] {
      LexLeTotal(a[1..], b[1..]);
    }
  }

  lemma {:induction false} LexLeRefl(a: string)
    ensures LexLe(a, a)
  {
    if |a| > 0 {
      LexLeRefl(a[1..]);
    }
  }

  lemma {:induction false} LexLeAntisymmetric(a: string, b: string)
    requires LexLe(a, b) && LexLe(b, a)
    ensures a == b
  {
    if |a| > 0 && |b| > 0 {
      LexLeAntisymmetric(a[1..], b[1..]);
      assert a == [a[0]] + a[1..];
      assert b == [b[0]] + b[1..];
    }
  }

  lemma {:induction false} LexLeTransitive(a: string, b: string, c: string)
    requires LexLe(a, b) && LexLe(b, c)
    ensures LexLe(a, c)
  {
    if |a| > 0 && |b| > 0 && |c| > 0 && a[0] == b[0] == c[0] {
      LexLeTransitive(a[1..], b[1..], c[1..]);
    }
  }
}
