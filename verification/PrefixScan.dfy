/**
  Prefix scans of the byte-keyed backends: the half-open range of
  internal/storage/postgres.go and the cursor loop of internal/storage/boltdb.go.
  A table is its rows in key order.
  */
module PrefixScan {
  import opened Options
  import opened ByteOrder
  import opened Collections

  type Octet = n: int | 0 <= n < 256

  type Key = seq<Octet>

  datatype Item = Item(key: Key, value: seq<Octet>)

  ghost predicate Table(items: seq<Item>) {
    forall i, j | 0 <= i < j < |items| :: Less(items[i].key, items[j].key)
  }

  /** The rows whose key starts with the prefix, in order. */
  function Select(items: seq<Item>, prefix: Key): seq<Item>
    decreases |items|
  {
    if |items| == 0 then []
    else
      var n := |items| - 1;
      Select(items[..n], prefix) + if HasPrefix(items[n].key, prefix) then [items[n]] else []
  }

  // ---------- The upper bound of the range ----------

  /** The least key above every key with the prefix, if there is one. */
  function Bound(prefix: Key): Option<Key>
    decreases |prefix|
  {
    if prefix == [] then None
    else
      var rest := Bound(prefix[1..]);
      if rest.Some? then Some([prefix[0]] + rest.value)
      else if prefix[0] != 0xff then Some([prefix[0] + 1])
      else None
  }

  lemma {:induction false} BoundNone(prefix: Key)
    ensures Bound(prefix).None? <==> forall i | 0 <= i < |prefix| :: prefix[i] == 0xff
    decreases |prefix|
  {
    if prefix != [] {
      BoundNone(prefix[1..]);
      assert forall i | 1 <= i < |prefix| :: prefix[i] == prefix[1..][i - 1];
    }
  }

  /** A tail of 0xff bytes does not matter. */
  lemma {:induction false} BoundAt(prefix: Key, i: nat)
    requires i < |prefix| && prefix[i] != 0xff && forall j | i < j < |prefix| :: prefix[j] == 0xff
    ensures Bound(prefix) == Some(prefix[..i] + [prefix[i] + 1])
    decreases |prefix|
  {
    var rest := prefix[1..];
    if i == 0 {
      BoundNone(rest);
      assert prefix[..0] + [prefix[0] + 1] == [prefix[0] + 1];
    } else {
      BoundAt(rest, i - 1);
      assert [prefix[0]] + (rest[..i - 1] + [rest[i - 1] + 1]) == prefix[..i] + [prefix[i] + 1];
    }
  }

  /** nextPrefix: copies the prefix and increments its last byte that is not 0xff. */
  method NextPrefix(prefix: Key) returns (end: Option<Key>)
    ensures end == Bound(prefix)
  {
    BoundNone(prefix);
    if |prefix| == 0 {
      return None;
    }
    var copied := new Octet[|prefix|](i requires 0 <= i < |prefix| => prefix[i]);
    var i := |prefix| - 1;
    while i >= 0
      invariant -1 <= i < |prefix| && copied.Length == |prefix|
      invariant forall j | 0 <= j < |prefix| :: copied[j] == prefix[j]
      invariant forall j | i < j < |prefix| :: prefix[j] == 0xff
    {
      if copied[i] != 0xff {
        copied[i] := copied[i] + 1;
        BoundAt(prefix, i);
        assert copied[..i + 1] == prefix[..i] + [prefix[i] + 1];
        return Some(copied[..i + 1]);
      }
      i := i - 1;
    }
    return None;
  }

  /** A prefix of 0xff bytes needs no upper bound. */
  lemma {:induction false} UnboundedRange(prefix: Key, k: Key)
    requires Bound(prefix).None?
    ensures !Less(k, prefix) <==> HasPrefix(k, prefix)
    decreases |prefix|
  {
    if prefix != [] {
      PrefixHead(k, prefix);
      if |k| > 0 {
        UnboundedRange(prefix[1..], k[1..]);
      }
    }
  }

  /** prefix <= k < nextPrefix(prefix) exactly when k starts with the prefix. */
  lemma {:induction false} RangeIsPrefix(prefix: Key, k: Key)
    requires Bound(prefix).Some?
    ensures !Less(k, prefix) && Less(k, Bound(prefix).value) <==> HasPrefix(k, prefix)
    decreases |prefix|
  {
    PrefixHead(k, prefix);
    var rest := prefix[1..];
    if |k| > 0 {
      if Bound(rest).Some? {
        RangeIsPrefix(rest, k[1..]);
        assert Bound(prefix).value[1..] == Bound(rest).value;
      } else {
        UnboundedRange(rest, k[1..]);
        assert !Less(k[1..], []);
      }
    }
  }

  // ---------- The two scans ----------

  predicate InRange(k: Key, prefix: Key, end: Option<Key>) {
    end.Some? && !Less(k, prefix) && Less(k, end.value)
  }

  /** SELECT ... WHERE k >= prefix AND k < end ORDER BY k; a missing bound is NULL and matches nothing. */
  method RangeScan(items: seq<Item>, prefix: Key) returns (out: seq<Item>)
    ensures Bound(prefix).Some? ==> out == Select(items, prefix)
    ensures Bound(prefix).None? ==> out == []
  {
    var end := NextPrefix(prefix);
    out := [];
    for i := 0 to |items|
      invariant end.Some? ==> out == Select(items[..i], prefix)
      invariant end.None? ==> out == []
    {
      assert items[..i + 1][..i] == items[..i];
      if end.Some? {
        RangeIsPrefix(prefix, items[i].key);
      }
      if InRange(items[i].key, prefix, end) {
        out := out + [items[i]];
      }
    }
    assert items[..|items|] == items;
  }

  /** Beyond the first key past the prefix there is no key with the prefix. */
  lemma {:induction false} PrefixIsConvex(prefix: Key, k: Key, later: Key)
    requires !Less(k, prefix) && !HasPrefix(k, prefix) && Less(k, later)
    ensures !HasPrefix(later, prefix)
    decreases |prefix|
  {
    if prefix != [] {
      PrefixHead(k, prefix);
      PrefixHead(later, prefix);
      if |later| > 0 && later[0] == prefix[0] && k[0] == prefix[0] {
        PrefixIsConvex(prefix[1..], k[1..], later[1..]);
      }
    }
  }

  lemma {:induction false} BelowHasNoPrefix(prefix: Key, k: Key)
    requires Less(k, prefix)
    ensures !HasPrefix(k, prefix)
    decreases |prefix|
  {
    PrefixHead(k, prefix);
    if |k| > 0 && k[0] == prefix[0] {
      BelowHasNoPrefix(prefix[1..], k[1..]);
    }
  }

  lemma {:induction false} SelectNone(items: seq<Item>, prefix: Key, from: nat)
    requires from <= |items| && forall j | from <= j < |items| :: !HasPrefix(items[j].key, prefix)
    ensures Select(items, prefix) == Select(items[..from], prefix)
    decreases |items|
  {
    if from < |items| {
      SelectNone(items[..|items| - 1], prefix, from);
      assert items[..|items| - 1][..from] == items[..from];
    } else {
      assert items[..from] == items;
    }
  }

  /** Seek: the first key at or above the prefix. */
  method Seek(items: seq<Item>, prefix: Key) returns (at: nat)
    ensures at <= |items| && Select(items[..at], prefix) == []
    ensures at < |items| ==> !Less(items[at].key, prefix)
  {
    at := 0;
    while at < |items| && Less(items[at].key, prefix)
      invariant 0 <= at <= |items|
      invariant forall j | 0 <= j < at :: !HasPrefix(items[j].key, prefix)
    {
      BelowHasNoPrefix(prefix, items[at].key);
      at := at + 1;
    }
    SelectNone(items[..at], prefix, 0);
  }

  /** Seek to the prefix, then step while the key has it. */
  method CursorScan(items: seq<Item>, prefix: Key) returns (out: seq<Item>)
    requires Table(items)
    ensures out == Select(items, prefix)
  {
    hide HasPrefix, Less;
    var at := Seek(items, prefix);
    out := [];
    while at < |items| && HasPrefix(items[at].key, prefix)
      invariant at <= |items| && out == Select(items[..at], prefix)
      invariant at < |items| ==> !Less(items[at].key, prefix)
    {
      assert items[..at + 1][..at] == items[..at];
      if at + 1 < |items| {
        AboveStaysAbove(prefix, items[at].key, items[at + 1].key);
      }
      out := out + [items[at]];
      at := at + 1;
    }
    forall j | at <= j < |items|
      ensures !HasPrefix(items[j].key, prefix)
    {
      if j > at {
        PrefixIsConvex(prefix, items[at].key, items[j].key);
      }
    }
    SelectNone(items, prefix, at);
  }

  lemma AboveStaysAbove(prefix: Key, k: Key, later: Key)
    requires HasPrefix(k, prefix) && Less(k, later)
    ensures !Less(later, prefix)
  {
    if Less(later, prefix) {
      Transitive(k, later, prefix);
      BelowHasNoPrefix(prefix, k);
    }
  }

  lemma {:induction false} SelectEmpty(items: seq<Item>, prefix: Key)
    ensures Select(items, prefix) == [] <==> forall i | 0 <= i < |items| :: !HasPrefix(items[i].key, prefix)
    decreases |items|
  {
    if |items| > 0 {
      SelectEmpty(items[..|items| - 1], prefix);
    }
  }

  /**
    The backends return the same rows if and only if the prefix has a byte
    other than 0xff or no stored key starts with it.
    */
  method ScansAgree(items: seq<Item>, prefix: Key) returns (ranged: seq<Item>, walked: seq<Item>)
    requires Table(items)
    ensures ranged == walked <==>
            || (exists i | 0 <= i < |prefix| :: prefix[i] != 0xff)
            || forall i | 0 <= i < |items| :: !HasPrefix(items[i].key, prefix)
    ensures walked == Select(items, prefix)
  {
    ranged := RangeScan(items, prefix);
    walked := CursorScan(items, prefix);
    BoundNone(prefix);
    SelectEmpty(items, prefix);
  }
}
