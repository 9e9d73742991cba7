/** The record sorter of Parser#sort: `results.sort`, then `file.puts` of
    the sorted array. */
module Sorter {
  import opened Text
  import opened Tokenizer

  /** IO#puts given an array: each element, followed by `\n` unless it
      already ends in one. (What puts writes for an empty array is not part
      of this model; here it writes nothing.) */
  function Puts(lines: seq<string>): string {
    if lines == [] then ""
    else (if EndsInNewline(lines[0]) then lines[0] else lines[0] + "\n") + Puts(lines[1..])
  }

  /** When no element ends in `\n`, puts writes the elements joined by `\n`
      and one final `\n`: every record is followed by exactly one line
      break. */
  lemma {:induction false} PutsJoins(lines: seq<string>)
    requires lines != []
    requires forall k :: 0 <= k < |lines| ==> !EndsInNewline(lines[k])
    ensures Puts(lines) == JoinLines(lines) + "\n"
  {
    if |lines| > 1 {
      PutsJoins(lines[1..]);
      JoinLinesCons(lines[0], lines[1..]);
      assert [lines[0]] + lines[1..] == lines;
    }
  }

  /** Non-decreasing in Ruby's String order. */
  predicate Sorted(rs: seq<string>) {
    forall i :: 0 < i < |rs| ==> LexLe(rs[i - 1], rs[i])
  }

  /** The head of a sorted sequence is at most every element. */
  lemma {:induction false} SortedHeadLeast(rs: seq<string>, k: nat)
    requires Sorted(rs) && k < |rs|
    ensures LexLe(rs[0], rs[k])
  {
    if k == 0 {
      LexLeTotal(rs[0], rs[0]);
    } else {
      SortedHeadLeast(rs, k - 1);
      LexLeTransitive(rs[0], rs[k - 1], rs[k]);
    }
  }

  /** Two sorted arrangements of the same records are the same sequence, so
      any correct sort (Ruby's included) produces exactly SortRecords. */
  lemma {:induction false} SortedUnique(a: seq<string>, b: seq<string>)
    requires Sorted(a) && Sorted(b)
    requires multiset(a) == multiset(b)
    ensures a == b
  {
    if a == [] {
      assert |multiset(b)| == 0;
    } else {
      assert |multiset(b)| == |a|;
      assert b != [];
      assert a[0] in multiset(b);
      var i :| 0 <= i < |b| && b[i] == a[0];
      assert b[0] in multiset(a);
      var j :| 0 <= j < |a| && a[j] == b[0];
      SortedHeadLeast(b, i);
      SortedHeadLeast(a, j);
      LexLeAntisymmetric(a[0], b[0]);
      assert a == [a[0]] + a[1..];
      assert b == [b[0]] + b[1..];
      assert multiset(a) == multiset{a[0]} + multiset(a[1..]);
      assert multiset(b) == multiset{b[0]} + multiset(b[1..]);
      assert a[0] == b[0];
      assert multiset(a[1..]) == multiset(a) - multiset{a[0]};
      assert multiset(b[1..]) == multiset(b) - multiset{b[0]};
      SortedUnique(a[1..], b[1..]);
    }
  }

  lemma SortedCons(x: string, rs: seq<string>)
    requires Sorted(rs) && (|rs| > 0 ==> LexLe(x, rs[0]))
    ensures Sorted([x] + rs)
  {
    assert forall i :: 0 < i < |rs| + 1 ==> ([x] + rs)[i] == rs[i - 1];
  }

  /** `x` put in its place in a sorted sequence. */
  function Insert(x: string, rs: seq<string>): (r: seq<string>)
    ensures multiset(r) == multiset(rs) + multiset{x}
    ensures |r| == |rs| + 1
    ensures r[0] == x || (|rs| > 0 && r[0] == rs[0])
    ensures Sorted(rs) ==> Sorted(r)
  {
    if rs == [] || LexLe(x, rs[0]) then
      [x] + rs
    else
      LexLeTotal(x, rs[0]);
      var t := Insert(x, rs[1..]);
      assert multiset(rs) == multiset{rs[0]} + multiset(rs[1..]) by {
        assert rs == [rs[0]] + rs[1..];
      }
      assert Sorted(rs) ==> Sorted([rs[0]] + t) by {
        if Sorted(rs) {
          assert Sorted(rs[1..]);
          SortedCons(rs[0], t);
        }
      }
      [rs[0]] + t
  }

  /** Array#sort on strings: the records in non-decreasing order, a
      permutation of the input. */
  function SortRecords(rs: seq<string>): (r: seq<string>)
    ensures Sorted(r)
    ensures multiset(r) == multiset(rs)
  {
    if rs == [] then []
    else
      assert rs == [rs[0]] + rs[1..];
      Insert(rs[0], SortRecords(rs[1..]))
  }

  /** What Parser#sort writes back for a given file. */
  function SortOutput(file: string): string {
    Puts(SortRecords(Records(Normalize(file))))
  }

  // ---------------------------------------------------------------------
  // What sorting writes, and sorting twice

  /** Every record of the sorted output is one the tokenizer cut (clean and
      free of a `\n` followed by a date token), the output holds exactly the
      records of the input, in order, and it is those records joined by `\n`
      with one final `\n` (nothing for a file without records). */
  lemma SortOutputShape(file: string)
    ensures var rs := Records(Normalize(file));
      var sorted := SortRecords(rs);
      Sorted(sorted) && multiset(sorted) == multiset(rs) &&
      JoinLines(rs) == Normalize(file) &&
      AllClean(sorted) && AllNoBoundary(sorted) &&
      SortOutput(file) == if sorted == [] then "" else JoinLines(sorted) + "\n"
  {
    var rs := Records(Normalize(file));
    RecordsProperties(Normalize(file));
    var sorted := SortRecords(rs);
    PermutedClean(rs, sorted);
    if sorted != [] {
      PutsJoins(sorted);
    }
  }

  /** A permutation of clean records, free of boundaries, is again. */
  lemma PermutedClean(a: seq<string>, b: seq<string>)
    requires multiset(a) == multiset(b) && AllClean(a) && AllNoBoundary(a)
    ensures AllClean(b) && AllNoBoundary(b)
    ensures forall k :: 0 <= k < |b| ==> !EndsInNewline(b[k])
  {
    forall k | 0 <= k < |b| ensures Clean(b[k]) && NoBoundary(b[k]) {
      assert b[k] in multiset(a);
      var j :| 0 <= j < |a| && a[j] == b[k];
    }
  }

  /** A record that another run of the sorter gives back unchanged: clean,
      starting with a date token, free of a `\n` followed by a date token,
      and not ending in whitespace. */
  predicate Stable(r: string) {
    Clean(r) && DateAt(r, 0) && NoBoundary(r) && EndsSolid(r)
  }

  /** The last character is not whitespace in the sense of String#strip. */
  predicate EndsSolid(r: string) {
    r != [] && !IsStripSpace(r[|r| - 1])
  }

  predicate AllStable(rs: seq<string>) {
    forall k :: 0 <= k < |rs| ==> Stable(rs[k])
  }

  lemma PermutedStable(a: seq<string>, b: seq<string>)
    requires multiset(a) == multiset(b) && AllStable(a)
    ensures AllStable(b)
  {
    forall k | 0 <= k < |b| ensures Stable(b[k]) {
      assert b[k] in multiset(a);
      var j :| 0 <= j < |a| && a[j] == b[k];
    }
  }

  /** A clean record that does not start with whitespace, a `\n`, then
      normalised text starting with a digit is normalised text again. */
  lemma JoinStable(r: string, u: string)
    requires Clean(r) && !IsStripSpace(r[0]) && Normalized(u) && u != [] && IsDigit(u[0])
    ensures Normalized(r + "\n" + u)
  {
    var t := r + "\n" + u;
    assert forall i :: 0 <= i < |r| ==> t[i] == r[i];
    assert forall i :: 0 <= i < |u| ==> t[|r| + 1 + i] == u[i];
    assert t[|r|] == '\n';
    forall i | 0 <= i < |t| - 1 ensures t[i] != '\n' || t[i + 1] != '\n' {
      if i < |r| - 1 {
        assert t[i] == r[i] && t[i + 1] == r[i + 1];
      } else if i == |r| - 1 {
        assert t[i] == r[|r| - 1];
      } else if i == |r| {
        assert t[i + 1] == u[0];
      } else {
        assert t[i] == u[i - |r| - 1] && t[i + 1] == u[i - |r|];
      }
    }
  }

  /** Stable records joined by `\n` are normalised text that starts with a
      digit. */
  lemma {:induction false} JoinStableAll(rs: seq<string>)
    requires rs != [] && AllStable(rs)
    ensures Normalized(JoinLines(rs))
    ensures JoinLines(rs) != [] && IsDigit(JoinLines(rs)[0])
  {
    JoinLinesCons(rs[0], rs[1..]);
    assert [rs[0]] + rs[1..] == rs;
    var r := rs[0];
    assert Stable(r);
    if |rs| == 1 {
      assert JoinLines(rs) == r;
    } else {
      assert AllStable(rs[1..]) by {
        forall k | 0 <= k < |rs| - 1 ensures Stable(rs[1..][k]) {
          assert rs[1..][k] == rs[k + 1];
        }
      }
      JoinStableAll(rs[1..]);
      JoinStable(r, JoinLines(rs[1..]));
      assert JoinLines(rs)[0] == r[0];
    }
  }

  /** Sorting a second time changes nothing, when the file starts with a
      date token and no record ends in whitespace. (Whitespace at the end of
      the record that sorts last is stripped on the second run, so the
      condition is needed.) */
  lemma SortIdempotent(file: string)
    requires DateAt(Normalize(file), 0)
    requires forall k :: 0 <= k < |Records(Normalize(file))| ==> EndsSolid(Records(Normalize(file))[k])
    ensures SortOutput(SortOutput(file)) == SortOutput(file)
  {
    var text := Normalize(file);
    var rs := Records(text);
    RecordsProperties(text);
    assert AllStable(rs);
    var sorted := SortRecords(rs);
    PermutedStable(rs, sorted);
    assert sorted != [] by {
      assert rs != [] by {
        assert text != [];
        SplitNonEmpty(text, 0);
      }
      assert |multiset(sorted)| == |rs|;
    }
    PermutedClean(rs, sorted);
    PutsJoins(sorted);
    var joined := JoinLines(sorted);
    JoinStableAll(sorted);
    NormalizeDropsFinalNewline(joined);
    RecordsOfJoin(sorted);
    SortedUnique(SortRecords(sorted), sorted);
  }

  /** Where two strings first differ decides their order. */
  lemma {:induction false} LexLeAt(a: string, b: string, i: nat)
    requires i < |a| && i < |b| && a[..i] == b[..i] && a[i] < b[i]
    ensures LexLe(a, b) && !LexLe(b, a)
  {
    if i > 0 {
      assert a[0] == a[..i][0] && b[0] == b[..i][0];
      assert a[1..][..i - 1] == a[..i][1..];
      assert b[1..][..i - 1] == b[..i][1..];
      LexLeAt(a[1..], b[1..], i - 1);
    }
  }

  /** Text without a line break holds no boundary. */
  lemma NoBreakNoBoundary(r: string)
    requires NoNewline(r)
    ensures NoBoundary(r)
  {
  }

  /** A longer string with the same start sorts after. */
  lemma {:induction false} LexLeExtend(b: string, c: char)
    ensures LexLe(b, b + [c]) && !LexLe(b + [c], b)
  {
    if b != [] {
      assert (b + [c])[1..] == b[1..] + [c];
      LexLeExtend(b[1..], c);
    }
  }

  /** Two one-line records, the second dated, are tokenised apart. */
  lemma RecordsOfTwo(x: string, y: string)
    requires x != [] && y != [] && NoNewline(x) && NoNewline(y) && DateAt(y, 0)
    ensures Records(x + "\n" + y) == [x, y]
  {
    NoBreakNoBoundary(x);
    NoBreakNoBoundary(y);
    JoinLinesCons(x, [y]);
    assert [x] + [y] == [x, y];
    RecordsOfJoin([x, y]);
  }

  /** Two records sort into their order, whichever order they come in. */
  lemma SortTwo(x: string, y: string)
    requires LexLe(x, y)
    ensures SortRecords([x, y]) == [x, y] && SortRecords([y, x]) == [x, y]
  {
    assert Sorted([x, y]);
    SortedPermutation([x, y], [x, y]);
    SortedPermutation([y, x], [x, y]);
  }

  /** Sorting any permutation of a sorted sequence gives that sequence. */
  lemma SortedPermutation(rs: seq<string>, sorted: seq<string>)
    requires Sorted(sorted) && multiset(rs) == multiset(sorted)
    ensures SortRecords(rs) == sorted
  {
    SortedUnique(SortRecords(rs), sorted);
  }

  lemma PutsTwo(x: string, y: string)
    requires x != [] && y != [] && NoNewline(x) && NoNewline(y)
    ensures Puts([x, y]) == x + "\n" + y + "\n"
  {
    PutsJoins([x, y]);
    JoinLinesCons(x, [y]);
    assert [x] + [y] == [x, y];
  }

  /** The first run over `b `, then `a`: the records swap places, and the
      space after `b` stays. */
  lemma FirstRun(a: string, b: string)
    requires Stable(a) && Stable(b) && NoNewline(a) && NoNewline(b)
    requires LexLe(a, b) && a != b
    ensures DateAt(Normalize(b + " \n" + a), 0)
    ensures SortOutput(b + " \n" + a) == a + "\n" + b + " \n"
  {
    var b1 := b + " ";
    FirstRunText(a, b);
    RecordsOfTwo(b1, a);
    LexLeExtend(b, ' ');
    LexLeTransitive(a, b, b1);
    SortTwo(a, b1);
    PutsTwo(a, b1);
  }

  /** The text of the first run is already normalised, starts with a date
      token, and its first record is `b` and a space. */
  lemma FirstRunText(a: string, b: string)
    requires Stable(a) && Stable(b) && NoNewline(a) && NoNewline(b)
    ensures Normalize(b + " \n" + a) == b + " \n" + a == (b + " ") + "\n" + a
    ensures DateAt(b + " \n" + a, 0)
    ensures NoNewline(b + " ")
  {
    var b1 := b + " ";
    var file := b + " \n" + a;
    assert file == b1 + "\n" + a by {
      assert b + " \n" == b1 + "\n";
    }
    assert forall i :: 0 <= i < |b| ==> b1[i] == b[i];
    FirstRunNormalized(a, b);
    NormalizeKeeps(file);
    assert forall i :: 0 <= i < |b| ==> file[i] == b[i];
  }

  /** The second run: the space, now at the end of the text, is stripped. */
  lemma SecondRun(a: string, b: string)
    requires Stable(a) && Stable(b) && NoNewline(a) && NoNewline(b) && LexLe(a, b)
    ensures SortOutput(a + "\n" + b + " \n") == a + "\n" + b + "\n"
  {
    SecondRunText(a, b);
    RecordsOfTwo(a, b);
    SortTwo(a, b);
    PutsTwo(a, b);
  }

  lemma SecondRunText(a: string, b: string)
    requires Stable(a) && Stable(b)
    ensures Normalize(a + "\n" + b + " \n") == a + "\n" + b
  {
    var text := a + "\n" + b;
    JoinStable(a, b);
    assert a + "\n" + b + " \n" == text + " \n";
    NormalizeDropsSpaceNewline(text);
  }

  /** A record ending in a space, then a smaller record, with no other
      whitespace at the ends: the file starts with a date token, yet the
      sorter's output changes when it is sorted again, because that space
      survives the first run (another record follows it) and is stripped on
      the second (where it sorts last). */
  lemma SortNotIdempotent(a: string, b: string)
    requires Stable(a) && Stable(b) && NoNewline(a) && NoNewline(b)
    requires LexLe(a, b) && a != b
    ensures var file := b + " \n" + a;
      DateAt(Normalize(file), 0) && SortOutput(SortOutput(file)) != SortOutput(file)
  {
    FirstRun(a, b);
    SecondRun(a, b);
    assert |a + "\n" + b + "\n"| < |a + "\n" + b + " \n"|;
  }

  lemma FirstRunNormalized(a: string, b: string)
    requires Stable(a) && Stable(b)
    ensures Normalized(b + " \n" + a)
  {
    var b1 := b + " ";
    assert forall i :: 0 <= i < |b| ==> b1[i] == b[i];
    assert Clean(b1);
    assert b + " \n" + a == b1 + "\n" + a;
    JoinStable(b1, a);
  }
}
