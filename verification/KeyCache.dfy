/**
  The metadata cache of one node (internal/lifecycle/cache.go): positive entries,
  and negative entries that expire after five seconds.
  */
module KeyCache {
  import opened Options
  import opened Clock
  import opened Collections
  import opened KeyNames
  import opened Lifecycle

  const NEGATIVE_TTL: Time := 5_000_000_000

  datatype Cache = Cache(data: map<VersionId, Metadata>, negative: map<VersionId, Time>)

  const NO_CACHE := Cache(map[], map[])

  predicate IsNegative(c: Cache, k: VersionId, now: Time) {
    k in c.negative && now <= c.negative[k]
  }

  function Put(c: Cache, k: VersionId, m: Metadata): Cache {
    Cache(c.data[k := m], c.negative - {k})
  }

  function PutNegative(c: Cache, k: VersionId, now: Time): Cache {
    c.(negative := c.negative[k := now + NEGATIVE_TTL])
  }

  /** The entries whose row name starts with "key:<id>:v:". */
  predicate Hit(k: VersionId, id: string) {
    HasPrefix(RowName(KeyRow(k.id, k.version)), KeyPrefix(id))
  }

  function Invalidate(c: Cache, id: string): Cache {
    Cache(map k | k in c.data && !Hit(k, id) :: c.data[k], map k | k in c.negative && !Hit(k, id) :: c.negative[k])
  }

  /** No version of the key survives, and nothing is added. */
  lemma InvalidateClears(c: Cache, id: string)
    ensures forall k | k in Invalidate(c, id).data ::
              k.id != id && k in c.data && Invalidate(c, id).data[k] == c.data[k]
    ensures forall k | k in Invalidate(c, id).negative ::
              k.id != id && k in c.negative && Invalidate(c, id).negative[k] == c.negative[k]
  {
    forall k: VersionId | k.id == id
      ensures Hit(k, id)
    {
      PrefixCovers(id, k.version);
    }
  }

  /**
    Invalidation by name prefix also drops the versions of other keys whose id
    continues this one with ":v": a cached version goes if and only if its id,
    followed by ":v:", starts with this id followed by ":v:".
    */
  lemma HitExactly(k: VersionId, id: string)
    ensures Hit(k, id) <==> HasPrefix(k.id + ":v:", id + ":v:")
  {
    var name, prefix := RowName(KeyRow(k.id, k.version)), KeyPrefix(id);
    var digits := Decimal(k.version);
    var u, v := k.id + ":v:", id + ":v:";
    assert name == "key:" + (u + digits) && prefix == "key:" + v;
    assert Hit(k, id) <==> HasPrefix(u + digits, v) by {
      SamePrefix("key:", u + digits, v);
    }
    DecimalHasNoColon(k.version);
    if |v| <= |u| {
      assert (u + digits)[..|v|] == u[..|v|];
    } else {
      ColonBeyond(u, digits, v);
    }
  }

  lemma ColonBeyond(u: string, digits: string, v: string)
    requires |u| < |v| && v[|v| - 1] == ':' && ':' !in digits
    ensures !HasPrefix(u + digits, v)
  {
    if |v| <= |u + digits| {
      assert (u + digits)[..|v|][|v| - 1] == digits[|v| - 1 - |u|];
    }
  }

  /** Exactly those entries go, on both sides of the cache, and the others stay as they are. */
  lemma InvalidateExactly(c: Cache, id: string, k: VersionId)
    ensures k in Invalidate(c, id).data <==> k in c.data && !HasPrefix(k.id + ":v:", id + ":v:")
    ensures k in Invalidate(c, id).negative <==> k in c.negative && !HasPrefix(k.id + ":v:", id + ":v:")
    ensures k in Invalidate(c, id).data ==> Invalidate(c, id).data[k] == c.data[k]
    ensures k in Invalidate(c, id).negative ==> Invalidate(c, id).negative[k] == c.negative[k]
  {
    hide Hit;
    HitExactly(k, id);
  }

  lemma SamePrefix(head: string, s: string, prefix: string)
    ensures HasPrefix(head + s, head + prefix) <==> HasPrefix(s, prefix)
  {
    if |prefix| <= |s| {
      assert (head + s)[..|head| + |prefix|] == head + s[..|prefix|];
      assert (head + prefix)[|head|..] == prefix && (head + s[..|prefix|])[|head|..] == s[..|prefix|];
    }
  }

  lemma DecimalHasNoColon(n: int)
    ensures ':' !in Decimal(n)
  {}

  class DekCache {
    var data: map<VersionId, Metadata>
    var negative: map<VersionId, Time>

    ghost function Current(): Cache
      reads this
    {
      Cache(data, negative)
    }

    constructor ()
      ensures Current() == NO_CACHE
    {
      data, negative := map[], map[];
    }

    method Get(k: VersionId) returns (m: Option<Metadata>)
      ensures m == if k in data then Some(data[k]) else None
    {
      if k in data {
        return Some(data[k]);
      }
      return None;
    }

    method PutEntry(k: VersionId, m: Metadata)
      modifies this
      ensures Current() == Put(old(Current()), k, m)
    {
      data := data[k := m];
      negative := negative - {k};
    }

    method PutAbsent(k: VersionId, now: Time)
      modifies this
      ensures Current() == PutNegative(old(Current()), k, now)
    {
      negative := negative[k := now + NEGATIVE_TTL];
    }

    method IsAbsent(k: VersionId, now: Time) returns (r: bool)
      ensures r == IsNegative(Current(), k, now)
    {
      if k !in negative {
        return false;
      }
      return !(now > negative[k]);
    }

    /** invalidate: walks both maps and deletes by name prefix. */
    method InvalidateKey(id: string)
      modifies this
      ensures Current() == Invalidate(old(Current()), id)
    {
      hide Hit;
      var todo := data.Keys;
      while todo != {}
        invariant todo <= data.Keys <= old(data.Keys)
        invariant negative == old(negative)
        invariant forall k | k in old(data) :: k in data <==> k in todo || !Hit(k, id)
        invariant forall k | k in data :: data[k] == old(data)[k]
        decreases todo
      {
        var k :| k in todo;
        todo := todo - {k};
        if Hit(k, id) {
          data := data - {k};
        }
      }
      todo := negative.Keys;
      while todo != {}
        invariant todo <= negative.Keys <= old(negative.Keys)
        invariant data == Invalidate(old(Current()), id).data
        invariant forall k | k in old(negative) :: k in negative <==> k in todo || !Hit(k, id)
        invariant forall k | k in negative :: negative[k] == old(negative)[k]
        decreases todo
      {
        var k :| k in todo;
        todo := todo - {k};
        if Hit(k, id) {
          negative := negative - {k};
        }
      }
    }

    method Clear()
      modifies this
      ensures Current() == NO_CACHE
    {
      data, negative := map[], map[];
    }
  }
}
