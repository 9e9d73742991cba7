/** The configuration that Parser#initialize resolves: ldgr's defaults,
    overlaid by the user's settings, overlaid by the caller's. */
module Config {
  import opened Transactions

  /** A configuration hash, its symbol keys written by name. */
  type Settings = map<string, Value>

  /** FILEBASE: the ledger directory under the user's home. */
  function FileBase(home: string): string {
    home + "/.config/ledger/"
  }

  /** Parser#defaults, with Date.today given as its ISO 8601 text. */
  function Defaults(today: DateText, home: string): Settings {
    map[
      "currency" := Str("$"),
      "equity" := Str("Cash"),
      "effective" := Day(today),
      "date" := Day(today),
      "cleared" := Flag(false),
      "transactions_file" := Str(FileBase(home) + "transactions.dat")
    ]
  }

  /** Hash#merge: every key of either hash, the second hash winning. */
  function Merge(a: Settings, b: Settings): (r: Settings)
    ensures r.Keys == a.Keys + b.Keys
    ensures forall k :: k in b ==> r[k] == b[k]
    ensures forall k :: k in a && k !in b ==> r[k] == a[k]
  {
    a + b
  }

  /** `defaults.merge(user_config).merge(config)`: a key takes the caller's
      value if the caller gave one, else the user's, else the default; the
      five defaulted keys are always present. */
  function Resolve(today: DateText, home: string, user: Settings, explicit: Settings): (c: Settings)
    ensures c.Keys == Defaults(today, home).Keys + user.Keys + explicit.Keys
    ensures forall k :: k in explicit ==> c[k] == explicit[k]
    ensures forall k :: k in user && k !in explicit ==> c[k] == user[k]
    ensures forall k :: k !in user && k !in explicit && k in Defaults(today, home) ==> c[k] == Defaults(today, home)[k]
    ensures "currency" in c && "equity" in c && "effective" in c && "date" in c && "cleared" in c
    ensures user == map[] && explicit == map[] ==> c["currency"] == Str("$") && c["equity"] == Str("Cash")
  {
    Merge(Merge(Defaults(today, home), user), explicit)
  }
}
