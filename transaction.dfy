/** The transaction record of lib/ldgr/transaction.rb: eight mutable
    attributes, the canonical three-line text form, and the validity check. */
module Transactions {
  import opened Text

  /** The text Date#to_s gives, ISO 8601 `YYYY-MM-DD`; never empty. */
  type DateText = s: string | s != [] witness "2000-01-01"

  /** A Ruby value as the engine meets it: nil, a String object, a Date
      object (held as its text), or a boolean. A String and a Date with
      the same text print alike, but String(v) hands back the String object
      itself and a new string for a Date. */
  datatype Value = Nil | Str(s: string) | Day(iso: DateText) | Flag(b: bool)

  /** Ruby's String(v), which is also what string interpolation inserts. */
  function Show(v: Value): (r: string)
    ensures r == "" <==> v == Nil || v == Str("")
    ensures v.Str? ==> r == v.s
  {
    match v
    case Nil => ""
    case Str(s) => s
    case Day(iso) => iso
    case Flag(b) => if b then "true" else "false"
  }

  /** Ruby truthiness: everything except nil and false. */
  predicate Truthy(v: Value) {
    v != Nil && v != Flag(false)
  }

  /** The attributes declared by attr_accessor. */
  datatype Attr = Payee | Amount | Account | Equity | Date | Effective | Currency | Cleared

  /** The header line `<date> <cleared><payee>`, without its `\n`. */
  function Header(date: string, cleared: string, payee: string): string {
    date + " " + cleared + payee
  }

  /** The posting line `  <account>  <currency><amount>`, without its `\n`. */
  function Posting(account: string, currency: string, amount: string): string {
    "  " + account + "  " + currency + amount
  }

  /** The heredoc of Transaction#to_s over the interpolated field texts:
      three lines, each ending in `\n`. */
  function Block(date: string, cleared: string, payee: string, account: string,
                 currency: string, amount: string, equity: string): (r: string)
    ensures EndsInNewline(r)
    ensures |r| > |date| && r[..|date| + 1] == date + " "
  {
    Header(date, cleared, payee) + "\n" + Posting(account, currency, amount) + "\n" + "  " + equity + "\n"
  }

  /** When no field text holds a line break, each_line cuts the block into
      exactly the header line, the posting line and the equity line. */
  lemma BlockLines(date: string, cleared: string, payee: string, account: string,
                   currency: string, amount: string, equity: string)
    requires NoNewline(date) && NoNewline(cleared) && NoNewline(payee)
    requires NoNewline(account) && NoNewline(currency) && NoNewline(amount) && NoNewline(equity)
    ensures EachLine(Block(date, cleared, payee, account, currency, amount, equity))
         == [Header(date, cleared, payee) + "\n", Posting(account, currency, amount) + "\n", "  " + equity + "\n"]
  {
    var h, p, e := Header(date, cleared, payee) + "\n", Posting(account, currency, amount) + "\n", "  " + equity + "\n";
    var ls := [h, p, e];
    assert Concat(ls) == h + p + e by {
      assert Concat(ls[2..]) == e;
      assert Concat(ls[1..]) == p + Concat(ls[2..]);
    }
    assert Block(date, cleared, payee, account, currency, amount, equity) == h + p + e;
    assert LineShaped(h) by {
      forall i | 0 <= i < |h| - 1 ensures h[i] != '\n' {
        if i < |date| { assert h[i] == date[i]; }
        else if i == |date| { }
        else if i < |date| + 1 + |cleared| { assert h[i] == cleared[i - |date| - 1]; }
        else { assert h[i] == payee[i - |date| - 1 - |cleared|]; }
      }
    }
    assert LineShaped(p) by {
      forall i | 0 <= i < |p| - 1 ensures p[i] != '\n' {
        var a := 2 + |account| + 2;
        if i < 2 { }
        else if i < 2 + |account| { assert p[i] == account[i - 2]; }
        else if i < a { }
        else if i < a + |currency| { assert p[i] == currency[i - a]; }
        else { assert p[i] == amount[i - a - |currency|]; }
      }
    }
    assert LineShaped(e) by {
      forall i | 0 <= i < |e| - 1 ensures e[i] != '\n' {
        if i >= 2 { assert e[i] == equity[i - 2]; }
      }
    }
    EachLineConcat(ls);
  }

  /** Ldgr::Transaction: every attribute is read and written through its
      accessor; a fresh transaction has every attribute nil. */
  class Transaction {
    var payee: Value
    var amount: Value
    var account: Value
    var equity: Value
    var date: Value
    var effective: Value
    var currency: Value
    var cleared: Value

    /** Transaction.new: the block that fills the attributes is the caller's
        sequence of Set calls. */
    constructor ()
      ensures forall a :: Get(a) == Nil
    {
      payee, amount, account, equity := Nil, Nil, Nil, Nil;
      date, effective, currency, cleared := Nil, Nil, Nil, Nil;
    }

    /** The reader of attribute `a`. */
    function Get(a: Attr): Value
      reads this
    {
      match a
      case Payee => payee
      case Amount => amount
      case Account => account
      case Equity => equity
      case Date => date
      case Effective => effective
      case Currency => currency
      case Cleared => cleared
    }

    /** The writer of attribute `a`: that attribute becomes `v`, no other
        attribute changes. */
    method Set(a: Attr, v: Value)
      modifies this
      ensures Get(a) == v
      ensures forall b :: b != a ==> Get(b) == old(Get(b))
    {
      match a
      case Payee => payee := v;
      case Amount => amount := v;
      case Account => account := v;
      case Equity => equity := v;
      case Date => date := v;
      case Effective => effective := v;
      case Currency => currency := v;
      case Cleared => cleared := v;
    }

    /** to_s: the block built from the interpolated attributes. The
        effective attribute is not part of it. */
    function ToS(): string
      reads this
    {
      Block(Show(date), Show(cleared), Show(payee), Show(account), Show(currency), Show(amount), Show(equity))
    }

    /** valid?: payee, amount and account each render as non-empty text. */
    predicate IsValid()
      reads this
    {
      Show(payee) != "" && Show(amount) != "" && Show(account) != ""
    }
  }

  /** to_s is the header, posting and equity lines, each ending in `\n`,
      with a two-space indent on the last two. */
  lemma ToSLines(t: Transaction)
    requires forall a :: a != Effective ==> NoNewline(Show(t.Get(a)))
    ensures EachLine(t.ToS()) == [
      Show(t.date) + " " + Show(t.cleared) + Show(t.payee) + "\n",
      "  " + Show(t.account) + "  " + Show(t.currency) + Show(t.amount) + "\n",
      "  " + Show(t.equity) + "\n"]
  {
    assert NoNewline(Show(t.Get(Date))) && NoNewline(Show(t.Get(Cleared))) && NoNewline(Show(t.Get(Payee)));
    assert NoNewline(Show(t.Get(Account))) && NoNewline(Show(t.Get(Currency)));
    assert NoNewline(Show(t.Get(Amount))) && NoNewline(Show(t.Get(Equity)));
    BlockLines(Show(t.date), Show(t.cleared), Show(t.payee), Show(t.account),
               Show(t.currency), Show(t.amount), Show(t.equity));
  }

  /** to_s never looks at the effective attribute: two transactions that
      agree on the other seven render the same text. */
  lemma ToSIgnoresEffective(t: Transaction, u: Transaction)
    requires forall a :: a != Effective ==> t.Get(a) == u.Get(a)
    ensures t.ToS() == u.ToS()
  {
    assert t.Get(Date) == u.Get(Date) && t.Get(Cleared) == u.Get(Cleared) && t.Get(Payee) == u.Get(Payee);
    assert t.Get(Account) == u.Get(Account) && t.Get(Currency) == u.Get(Currency);
    assert t.Get(Amount) == u.Get(Amount) && t.Get(Equity) == u.Get(Equity);
  }

  /** A value is present when String(v) is not empty: nil and "" are not. */
  predicate Present(v: Value) {
    v != Nil && v != Str("")
  }

  /** valid? holds exactly when payee, amount and account are all present,
      whatever the other five attributes hold. */
  lemma ValidIff(t: Transaction)
    ensures t.IsValid() <==> Present(t.payee) && Present(t.amount) && Present(t.account)
  {
  }
}
