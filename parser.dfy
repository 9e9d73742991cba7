/** Ldgr::Parser: the configuration it resolves and its four commands over
    the transactions file. The file's text is passed in and the new text is
    handed back; Date.today, the home directory, the user's settings file
    and the answers typed at the prompts are parameters. */
module Ldgr {
  import opened Text
  import opened Wrappers
  import opened Transactions
  import opened Config
  import Tokenizer
  import Sorter
  import Clearer
  import Tagger

  /** `config[key]`: nil when the key is absent. */
  function Lookup(c: Settings, key: string): Value {
    if key in c then c[key] else Nil
  }

  /** The message of add's error_policy. */
  function MissingMessage(key: string): string {
    "You need to provide a value for " + key + "."
  }

  /** The message of the KeyError that Hash#fetch raises without a block. */
  function KeyErrorMessage(key: string): string {
    "key not found: :" + key
  }

  /** `date == effective ? date : date << '=' << effective`. */
  function DateToken(date: string, effective: string): string {
    if date == effective then date else date + "=" + effective
  }

  /** `config[:cleared] ? '* ' : ''`. */
  function ClearedMark(c: Settings): string {
    if Truthy(Lookup(c, "cleared")) then "* " else ""
  }

  /** What add appends for configuration `c`, or the message it fails with:
      the keys are fetched in the order date, effective, payee, account,
      amount (error_policy on a missing one), then currency and equity
      (whose fallback fetches again and so raises KeyError). */
  function Entry(c: Settings): Result<string, string> {
    if "date" !in c then Err(MissingMessage("date"))
    else if "effective" !in c then Err(MissingMessage("effective"))
    else if "payee" !in c then Err(MissingMessage("payee"))
    else if "account" !in c then Err(MissingMessage("account"))
    else if "amount" !in c then Err(MissingMessage("amount"))
    else if "currency" !in c then Err(KeyErrorMessage("currency"))
    else if "equity" !in c then Err(KeyErrorMessage("equity"))
    else Ok(Block(DateToken(Show(c["date"]), Show(c["effective"])), ClearedMark(c), Show(c["payee"]),
                  Show(c["account"]), Show(c["currency"]), Show(c["amount"]), Show(c["equity"])))
  }

  /** The configuration after a successful add. `String(config.fetch(:date))`
      is the configuration's own String object when the date is a String,
      and `date << '=' << effective` appends to it in place; a Date yields a
      new string, so the configuration keeps its Date. Only the date
      changes, and only when the two dates differ. */
  function AfterAdd(c: Settings): (r: Settings)
    requires "date" in c && "effective" in c
    ensures r.Keys == c.Keys
    ensures forall k :: k in c && k != "date" ==> r[k] == c[k]
    ensures r["date"] != c["date"] <==> c["date"].Str? && Show(c["date"]) != Show(c["effective"])
    ensures c["date"].Str? ==> Show(r["date"]) == DateToken(Show(c["date"]), Show(c["effective"]))
  {
    var date, effective := c["date"], Show(c["effective"]);
    if date.Str? && date.s != effective then c["date" := Str(date.s + "=" + effective)] else c
  }

  /** The block add passes to Transaction.new: the keys are fetched in
      order into a fresh Transaction, and its to_s is the entry, or the
      first missing key ends it with its message. */
  method BuildEntry(c: Settings) returns (r: Result<string, string>)
    ensures r == Entry(c)
  {
    var t := new Transaction();
    if "date" !in c { return Err(MissingMessage("date")); }
    var date := Show(c["date"]);
    if "effective" !in c { return Err(MissingMessage("effective")); }
    var effective := Show(c["effective"]);
    if "payee" !in c { return Err(MissingMessage("payee")); }
    t.payee := c["payee"];
    if "account" !in c { return Err(MissingMessage("account")); }
    t.account := c["account"];
    if "amount" !in c { return Err(MissingMessage("amount")); }
    t.amount := c["amount"];
    if "currency" !in c { return Err(KeyErrorMessage("currency")); }
    t.currency := c["currency"];
    if "equity" !in c { return Err(KeyErrorMessage("equity")); }
    t.equity := c["equity"];
    t.cleared := Str(if Truthy(Lookup(c, "cleared")) then "* " else "");
    t.date := Str(if date == effective then date else date + "=" + effective);
    r := Ok(t.ToS());
  }

  class Parser {
    var transactionsFile: string
    var config: Settings

    /** Parser.new(config:): the transactions file is always the default
        one (the resolved configuration is not consulted for it), and the
        configuration is the defaults overlaid by the user's settings and
        then by the caller's. */
    constructor (today: DateText, home: string, user: Settings, explicit: Settings)
      ensures transactionsFile == FileBase(home) + "transactions.dat"
      ensures config == Resolve(today, home, user, explicit)
    {
      transactionsFile := Show(Defaults(today, home)["transactions_file"]);
      config := Resolve(today, home, user, explicit);
    }

    /** Parser#add: the entry the block of Transaction.new builds is
        appended to the file, or add fails with the message for the first
        key it misses. On success a String date is left extended by
        `=effective` in the configuration, as AfterAdd says. */
    method Add(file: string) returns (r: Result<string, string>)
      modifies this
      ensures transactionsFile == old(transactionsFile)
      ensures Entry(old(config)).Err? ==> r == Err(Entry(old(config)).error) && config == old(config)
      ensures Entry(old(config)).Ok? ==> r == Ok(file + Entry(old(config)).value) && config == AfterAdd(old(config))
    {
      var entry := BuildEntry(config);
      if entry.Err? {
        return Err(entry.error);
      }
      var date := config["date"];
      var effective := Show(config["effective"]);
      if date.Str? && date.s != effective {
        config := config["date" := Str(date.s + "=" + effective)];
      }
      r := Ok(file + entry.value);
    }

    /** Parser#sort: normalise the text, cut it into records with the
        scanner, sort them and write them back with puts. */
    method Sort(file: string) returns (output: string)
      ensures output == Sorter.SortOutput(file)
    {
      var text := Tokenizer.Normalize(file);
      var results := Tokenizer.Tokenize(text);
      output := Sorter.Puts(Sorter.SortRecords(results));
    }

    /** Parser#clear: every line, in order; a header whose effective date
        (or, without one, today) is not after today is shown and, on a yes,
        gets `* ` after its date token. Returns the new text and the lines
        shown. */
    method Clear(file: string, today: string, answers: seq<string>) returns (output: string, shown: seq<string>)
      ensures var lines := EachLine(file);
        output == Concat(Clearer.ClearedLines(lines, today, answers)) && shown == Clearer.Offered(lines, today)
    {
      var lines := EachLine(file);
      output, shown := ClearLines(lines, today, answers);
      ClearedTextWhole(lines, today, answers);
      assert lines[..|lines|] == lines;
    }

    /** Parser#tag: every line, in order; a posting line is shown with the
        line before it and its amount and, unless the answer is `None`, gets
        the capitalised answer in place of its `Expenses` prefix. Returns
        the new text and the prompts shown. */
    method Tag(file: string, answers: seq<string>) returns (output: string, shown: seq<string>)
      ensures var lines := EachLine(file);
        output == Concat(Tagger.TaggedLines(lines, answers)) && shown == Tagger.Shown(lines, answers, |lines|)
    {
      var lines := EachLine(file);
      output, shown := "", [];
      var count := 0;
      var previous := "";
      var i := 0;
      while i < |lines|
        invariant i <= |lines| && output == TaggedText(lines, answers, i)
        invariant shown == Tagger.Shown(lines, answers, i) && count == |Tagger.Matches(lines[..i])|
        invariant previous == Tagger.Previous(lines, answers, i)
      {
        var transaction, prompt;
        transaction, prompt, count := TagOne(lines, i, previous, count, answers);
        if prompt.Some? {
          shown := shown + [prompt.value];
        }
        previous := Chomp(transaction);
        output := output + transaction;
        i := i + 1;
      }
      assert output == Concat(Tagger.TaggedLines(lines, answers)) by {
        TaggedTextAll(lines, answers, i);
        assert Tagger.TaggedLines(lines, answers)[..i] == Tagger.TaggedLines(lines, answers);
      }
    }
  }

  /** The loop of Parser#clear over the file's lines. */
  method ClearLines(lines: seq<string>, today: string, answers: seq<string>) returns (output: string, shown: seq<string>)
    ensures output == ClearedText(lines, today, answers, |lines|) && shown == Clearer.Offered(lines[..|lines|], today)
  {
    output, shown := "", [];
    var count := 0;
    var i := 0;
    while i < |lines|
      invariant i <= |lines| && output == ClearedText(lines, today, answers, i)
      invariant shown == Clearer.Offered(lines[..i], today) && count == |shown|
    {
      output, count, shown := ClearOne(lines, i, today, answers, output, count, shown);
      i := i + 1;
    }
  }

  /** The block clear runs for line `i`, after `count` prompts: a header
      that the pattern matches and whose effective date (today, when it has
      none) is not after today is shown and counted; on an answer with a `y`
      it gets `* ` after its date token. The line, changed or not, is
      appended to the output. */
  method ClearOne(lines: seq<string>, i: nat, today: string, answers: seq<string>,
                  output: string, count: nat, shown: seq<string>)
    returns (output': string, count': nat, shown': seq<string>)
    requires i < |lines| && output == ClearedText(lines, today, answers, i)
    requires shown == Clearer.Offered(lines[..i], today) && count == |shown|
    ensures output' == ClearedText(lines, today, answers, i + 1)
    ensures shown' == Clearer.Offered(lines[..i + 1], today) && count' == |shown'|
  {
    var transaction := lines[i];
    var found := Clearer.ClearMatch(transaction);
    var effective := today;
    if found.Some? && Clearer.Groups(transaction, found.value).effective.Some? {
      effective := Clearer.Groups(transaction, found.value).effective.value;
    }
    LexLeRefl(today);
    count', shown' := count, shown;
    if found.Some? && LexLe(effective, today) {
      count' := count + 1;
      shown' := shown + [transaction];
      var question := Clearer.Answer(answers, count);
      if Clearer.Affirmative(question) {
        transaction := Clearer.Rewrite(Clearer.Groups(transaction, found.value));
      }
    }
    Clearer.OfferedStep(lines, i, today);
    output' := output + transaction;
  }

  /** The block tag runs for line `i`: a posting is shown with `previous`
      (the line before it, as tagged) and its amount, takes the answer
      after the `count` given so far, and is tagged unless that answer is
      `None`; any other line passes unchanged. */
  method TagOne(lines: seq<string>, i: nat, previous: string, count: nat, answers: seq<string>)
    returns (line: string, prompt: Option<string>, next: nat)
    requires i < |lines| && count == |Tagger.Matches(lines[..i])| && previous == Tagger.Previous(lines, answers, i)
    ensures line == Tagger.TaggedLine(lines, answers, i) && Chomp(line) == Tagger.Previous(lines, answers, i + 1)
    ensures prompt.Some? <==> Tagger.TagMatch(lines[i]).Some?
    ensures Tagger.Shown(lines, answers, i + 1) ==
      Tagger.Shown(lines, answers, i) + (if prompt.Some? then [prompt.value] else [])
    ensures next == |Tagger.Matches(lines[..i + 1])|
  {
    var transaction := lines[i];
    line, prompt, next := transaction, None, count;
    var found := Tagger.TagMatch(transaction);
    if found.Some? {
      next := count + 1;
      prompt := Some(Tagger.Prompt(previous, Tagger.Amount(transaction, found.value)));
      var question := Tagger.TagAnswer(answers, next - 1);
      if question != "None" {
        line := Tagger.ReplaceAll(transaction, Tagger.Prefix(transaction, found.value), Tagger.Replacement(question));
      }
    }
    assert next == |Tagger.Matches(lines[..i + 1])| by {
      Tagger.MatchesStep(lines, i);
    }
    assert Tagger.Shown(lines, answers, i + 1) ==
      Tagger.Shown(lines, answers, i) + (if prompt.Some? then [prompt.value] else []) by {
      Tagger.TagStep(lines, answers, i);
      Tagger.ShownStep(lines, answers, i);
    }
  }

  // ---------------------------------------------------------------------
  // What add can write

  /** A key the user's settings or the caller gave. */
  predicate Given(user: Settings, explicit: Settings, key: string) {
    key in user || key in explicit
  }

  /** With the resolved configuration, add never misses the date, the
      effective date, the currency or the equity, which the defaults
      supply: it fails exactly when the payee, the account or the amount
      was given nowhere, naming the first of them in that order. */
  lemma ResolvedEntry(today: DateText, home: string, user: Settings, explicit: Settings)
    ensures var c := Resolve(today, home, user, explicit);
      (Entry(c).Ok? <==>
         Given(user, explicit, "payee") && Given(user, explicit, "account") && Given(user, explicit, "amount")) &&
      (!Given(user, explicit, "payee") ==> Entry(c) == Err(MissingMessage("payee"))) &&
      (Given(user, explicit, "payee") && !Given(user, explicit, "account") ==> Entry(c) == Err(MissingMessage("account"))) &&
      (Given(user, explicit, "payee") && Given(user, explicit, "account") && !Given(user, explicit, "amount") ==>
         Entry(c) == Err(MissingMessage("amount")))
  {
    var c := Resolve(today, home, user, explicit);
    var d := Defaults(today, home);
    assert "payee" !in d && "account" !in d && "amount" !in d;
    assert "payee" in c <==> Given(user, explicit, "payee");
    assert "account" in c <==> Given(user, explicit, "account");
    assert "amount" in c <==> Given(user, explicit, "amount");
  }

  /** A second add on the same parser, after one whose String date
      differed from the effective date, writes the effective date twice:
      its header token is `date=effective=effective`. */
  lemma AddTwice(c: Settings)
    requires Entry(c).Ok? && c["date"].Str? && Show(c["date"]) != Show(c["effective"])
    ensures Entry(AfterAdd(c)).Ok?
    ensures var token := Show(c["date"]) + "=" + Show(c["effective"]) + "=" + Show(c["effective"]);
      |Entry(AfterAdd(c)).value| > |token| && Entry(AfterAdd(c)).value[..|token| + 1] == token + " "
  {
    var d := AfterAdd(c);
    var once := Show(c["date"]) + "=" + Show(c["effective"]);
    assert Show(d["date"]) == once && Show(d["effective"]) == Show(c["effective"]);
    assert once != Show(c["effective"]) by {
      assert |once| > |Show(c["effective"])|;
    }
  }

  /** When no value holds a line break, what add appends is three lines:
      the header `<token> <mark><payee>`, the posting and the equity. */
  lemma EntryLines(c: Settings)
    requires Entry(c).Ok?
    requires forall k :: k in c ==> NoNewline(Show(c[k]))
    ensures EachLine(Entry(c).value) == [
      Header(DateToken(Show(c["date"]), Show(c["effective"])), ClearedMark(c), Show(c["payee"])) + "\n",
      Posting(Show(c["account"]), Show(c["currency"]), Show(c["amount"])) + "\n",
      "  " + Show(c["equity"]) + "\n"]
  {
    var date, effective := Show(c["date"]), Show(c["effective"]);
    assert NoNewline(DateToken(date, effective)) by {
      if date != effective {
        var t := date + "=" + effective;
        forall i | 0 <= i < |t| ensures t[i] != '\n' {
          if i < |date| { assert t[i] == date[i]; }
          else if i > |date| { assert t[i] == effective[i - |date| - 1]; }
        }
      }
    }
    BlockLines(DateToken(date, effective), ClearedMark(c), Show(c["payee"]), Show(c["account"]),
               Show(c["currency"]), Show(c["amount"]), Show(c["equity"]));
  }

  /** The header add writes, seen by clear: with well-formed date tokens,
      it is offered exactly when it was not written cleared, its payee does
      not start with `*` (the pattern needs a character other than `*`
      right after the token's space, so such a payee reads as cleared), and
      its effective date is not after today (a header whose two dates agree
      carries no effective date and is always due). */
  lemma AddedHeaderOffered(date: string, effective: string, cleared: bool, payee: string, today: string)
    requires Clearer.Token(date) && Clearer.Token(effective)
    ensures Clearer.Candidate(Header(DateToken(date, effective), if cleared then "* " else "", payee) + "\n", today)
        <==> !cleared && (payee == [] || payee[0] != '*') && (date == effective || LexLe(effective, today))
  {
    var h := Clearer.Header(date, if date == effective then None else Some(effective), "", "");
    var f := Clearer.Front(h);
    assert f == DateToken(date, effective);
    if cleared {
      StarredHeaderDeclined(h, Header(f, "* ", payee) + "\n", " " + payee + "\n", today);
    } else if payee != [] && payee[0] == '*' {
      StarredHeaderDeclined(h, Header(f, "", payee) + "\n", payee[1..] + "\n", today);
    } else {
      UnclearedHeaderOffered(h, payee, today);
    }
  }

  /** A header whose token is followed by a space and a `*` is never
      offered. */
  lemma StarredHeaderDeclined(h: Clearer.Header, line: string, tail: string, today: string)
    requires Clearer.Token(h.date) && (h.effective.Some? ==> Clearer.Token(h.effective.value))
    requires line == Clearer.Front(h) + " *" + tail
    ensures !Clearer.Candidate(line, today)
  {
    var f := Clearer.Front(h);
    assert line[..|f|] == f && line[|f|] == ' ' && line[|f| + 1] == '*';
    Clearer.TokenEndsOfFront(h, line);
    Clearer.StarredNoMatch(line, |f|);
  }

  /** An uncleared header whose payee does not start with `*` is offered
      exactly when it is due. */
  lemma UnclearedHeaderOffered(h: Clearer.Header, payee: string, today: string)
    requires Clearer.Token(h.date) && (h.effective.Some? ==> Clearer.Token(h.effective.value))
    requires payee == [] || payee[0] != '*'
    ensures Clearer.Candidate(Header(Clearer.Front(h), "", payee) + "\n", today) <==>
            h.effective.None? || LexLe(h.effective.value, today)
  {
    var back, rest := PayeeGroups(payee);
    var g := Clearer.Header(h.date, h.effective, back, rest);
    var f := Clearer.Front(h);
    assert Header(f, "", payee) + "\n" == Clearer.Front(g) + " " + back + rest by {
      assert Clearer.Front(g) == f && Header(f, "", payee) == f + " " + payee;
      assert f + " " + payee + "\n" == f + " " + (payee + "\n");
      assert f + " " + (back + rest) == f + " " + back + rest;
    }
    Clearer.HeaderCandidate(g, today);
  }

  /** How the pattern's `[^\*]+` and the rest of the line divide a payee
      that does not start with `*`, with its line break: the run takes the
      payee up to its first `*`, or all of it and the line break when it
      has none. */
  lemma PayeeGroups(payee: string) returns (back: string, rest: string)
    requires payee == [] || payee[0] != '*'
    ensures back + rest == payee + "\n"
    ensures back != [] && Clearer.NoStar(back) && (rest == [] || rest[0] == '*')
  {
    var k := CharFrom(payee, 0, '*');
    back := if k == |payee| then payee + "\n" else payee[..k];
    rest := if k == |payee| then "" else payee[k..] + "\n";
    forall j | 0 <= j < |back| ensures back[j] != '*' {
      if j < k {
        assert back[j] == payee[j];
        CharFromBefore(payee, 0, j, '*');
      }
    }
  }

  /** The text of the first `n` lines after clear, as the loop of
      Parser#clear builds it. */
  ghost function ClearedText(lines: seq<string>, today: string, answers: seq<string>, n: nat): string
    requires n <= |lines|
  {
    if n == 0 then ""
    else
      var answer := Clearer.Answer(answers, |Clearer.Offered(lines[..n - 1], today)|);
      ClearedText(lines, today, answers, n - 1) + Clearer.ClearLine(lines[n - 1], today, answer)
  }

  lemma {:induction false} ClearedTextAll(lines: seq<string>, today: string, answers: seq<string>, n: nat)
    requires n <= |lines|
    ensures ClearedText(lines, today, answers, n) == Concat(Clearer.ClearedLines(lines, today, answers)[..n])
  {
    if n > 0 {
      ClearedTextAll(lines, today, answers, n - 1);
      ClearedPrefix(Clearer.ClearedLines(lines, today, answers), n - 1);
    }
  }

  /** The text of the first `n` lines after tag, as the loop of Parser#tag
      builds it. */
  ghost function TaggedText(lines: seq<string>, answers: seq<string>, n: nat): string
    requires n <= |lines|
  {
    if n == 0 then "" else TaggedText(lines, answers, n - 1) + Tagger.TaggedLine(lines, answers, n - 1)
  }

  lemma {:induction false} TaggedTextAll(lines: seq<string>, answers: seq<string>, n: nat)
    requires n <= |lines|
    ensures TaggedText(lines, answers, n) == Concat(Tagger.TaggedLines(lines, answers)[..n])
  {
    if n > 0 {
      TaggedTextAll(lines, answers, n - 1);
      ClearedPrefix(Tagger.TaggedLines(lines, answers), n - 1);
    }
  }

  lemma ClearedTextWhole(lines: seq<string>, today: string, answers: seq<string>)
    ensures ClearedText(lines, today, answers, |lines|) == Concat(Clearer.ClearedLines(lines, today, answers))
  {
    ClearedTextAll(lines, today, answers, |lines|);
    assert Clearer.ClearedLines(lines, today, answers)[..|lines|] == Clearer.ClearedLines(lines, today, answers);
  }

  /** The text of the first `i + 1` pieces is that of the first `i` and
      piece `i`. */
  lemma ClearedPrefix(parts: seq<string>, i: nat)
    requires i < |parts|
    ensures Concat(parts[..i + 1]) == Concat(parts[..i]) + parts[i]
  {
    assert parts[..i + 1] == parts[..i] + [parts[i]];
    ConcatAppend(parts[..i], parts[i]);
  }
}
