/**
  Row names in the key-value store (internal/lifecycle/manager.go): one row per
  key version, "key:<id>:v:<n>", and one index row per key, "meta:latest:<id>".
  Names are injective because the version, printed last, has no colon.
  */
module KeyNames {
  import opened Collections

  datatype Row = KeyRow(id: string, version: int) | LatestRow(id: string)

  function Digit(n: nat): char
    requires n < 10
  {
    ('0' as int + n) as char
  }

  function Digits(n: nat): (s: string)
    ensures |s| > 0 && ':' !in s && '-' !in s
  {
    if n < 10 then [Digit(n)] else Digits(n / 10) + [Digit(n % 10)]
  }

  /** The %d rendering. */
  function Decimal(n: int): string {
    if n < 0 then "-" + Digits(-n) else Digits(n)
  }

  function KeyPrefix(id: string): string {
    "key:" + id + ":v:"
  }

  function RowName(row: Row): string {
    match row
    case KeyRow(id, version) => KeyPrefix(id) + Decimal(version)
    case LatestRow(id) => "meta:latest:" + id
  }

  lemma {:induction false} DigitsInjective(m: nat, n: nat)
    requires Digits(m) == Digits(n)
    ensures m == n
  {
    var s, t := Digits(m), Digits(n);
    if m >= 10 && n >= 10 {
      assert s[..|s| - 1] == Digits(m / 10) && t[..|t| - 1] == Digits(n / 10);
      assert s[|s| - 1] == Digit(m % 10) && t[|t| - 1] == Digit(n % 10);
      DigitsInjective(m / 10, n / 10);
    }
  }

  lemma DecimalInjective(m: int, n: int)
    requires Decimal(m) == Decimal(n)
    ensures m == n
  {
    if m < 0 && n < 0 {
      assert Decimal(m)[1..] == Digits(-m) && Decimal(n)[1..] == Digits(-n);
      DigitsInjective(-m, -n);
    } else if m >= 0 && n >= 0 {
      DigitsInjective(m, n);
    }
  }

  lemma EarlierColon(u: string, d: string, u': string, d': string)
    requires u + ":" + d == u' + ":" + d' && |u| < |u'|
    ensures ':' in d
  {
    var s := u' + ":" + d';
    assert s[|u'|] == ':';
    assert s == u + ":" + d;
    assert d[|u'| - |u| - 1] == s[|u'|];
  }

  /** A suffix without colons is determined by the string: it follows the last colon. */
  lemma LastColon(u: string, d: string, u': string, d': string)
    requires u + ":" + d == u' + ":" + d' && ':' !in d && ':' !in d'
    ensures u == u' && d == d'
  {
    if |u| < |u'| {
      EarlierColon(u, d, u', d');
    } else if |u'| < |u| {
      EarlierColon(u', d', u, d);
    } else {
      var s := u + ":" + d;
      assert u == s[..|u|] == u';
      assert d == s[|u| + 1..] == d';
    }
  }

  lemma FirstLetter(row: Row)
    ensures |RowName(row)| > 0 && RowName(row)[0] == if row.KeyRow? then 'k' else 'm'
  {}

  lemma RowNameInjective(a: Row, b: Row)
    requires RowName(a) == RowName(b)
    ensures a == b
  {
    FirstLetter(a);
    FirstLetter(b);
    if a.KeyRow? && b.KeyRow? {
      var u, v := "key:" + a.id + ":v", "key:" + b.id + ":v";
      assert RowName(a) == u + ":" + Decimal(a.version) && RowName(b) == v + ":" + Decimal(b.version);
      LastColon(u, Decimal(a.version), v, Decimal(b.version));
      assert u[4..|u| - 2] == a.id && v[4..|v| - 2] == b.id;
      DecimalInjective(a.version, b.version);
    } else if a.LatestRow? && b.LatestRow? {
      assert RowName(a)[12..] == a.id && RowName(b)[12..] == b.id;
    }
  }

  // ---------- A store keyed by names is a store keyed by rows ----------

  ghost function Names<V>(rows: map<Row, V>): set<string> {
    set r | r in rows :: RowName(r)
  }

  ghost function RowOf<V>(rows: map<Row, V>, name: string): (r: Row)
    requires name in Names(rows)
    ensures r in rows && RowName(r) == name
  {
    var r :| r in rows && RowName(r) == name; r
  }

  ghost function Named<V>(rows: map<Row, V>): map<string, V> {
    map name | name in Names(rows) :: rows[RowOf(rows, name)]
  }

  lemma NamedGet<V>(rows: map<Row, V>, row: Row)
    ensures RowName(row) in Named(rows) <==> row in rows
    ensures row in rows ==> Named(rows)[RowName(row)] == rows[row]
  {
    hide RowName;
    if RowName(row) in Names(rows) {
      RowNameInjective(RowOf(rows, RowName(row)), row);
    }
  }

  lemma NamedPut<V>(rows: map<Row, V>, row: Row, v: V)
    ensures Named(rows[row := v]) == Named(rows)[RowName(row) := v]
  {
    hide RowName, RowOf;
    var after := rows[row := v];
    NamedGet(after, row);
    assert Names(after) == Names(rows) + {RowName(row)};
    forall name | name in Names(after) && name != RowName(row)
      ensures Named(after)[name] == Named(rows)[name]
    {
      var r := RowOf(after, name);
      NamedGet(after, r);
      NamedGet(rows, r);
    }
  }

  lemma NamedDelete<V>(rows: map<Row, V>, row: Row)
    ensures Named(rows - {row}) == Named(rows) - {RowName(row)}
  {
    hide RowName, RowOf;
    var after := rows - {row};
    NamedGet(after, row);
    forall name | name in Names(rows) && name != RowName(row)
      ensures name in Names(after) && Named(after)[name] == Named(rows)[name]
    {
      var r := RowOf(rows, name);
      NamedGet(after, r);
      NamedGet(rows, r);
    }
    assert Names(after) == Names(rows) - {RowName(row)};
  }

  // ---------- Prefixes ----------

  /** Invalidation by name prefix reaches every version of the key. */
  lemma PrefixCovers(id: string, version: int)
    ensures HasPrefix(RowName(KeyRow(id, version)), KeyPrefix(id))
  {
    assert RowName(KeyRow(id, version))[..|KeyPrefix(id)|] == KeyPrefix(id);
  }

  /** The scans over "key:" see exactly the version rows. */
  lemma KeyScanSeesVersions(row: Row)
    ensures HasPrefix(RowName(row), "key:") <==> row.KeyRow?
  {
    if row.KeyRow? {
      assert RowName(row)[..4] == "key:";
    } else {
      assert RowName(row)[0] == 'm';
    }
  }
}
