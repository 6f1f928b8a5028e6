/** Packet filter rules and the plain, rule-by-rule reading of them. */
module FilterRules {
  type Cap(==, !new)
  type Proto(==, !new)

  /** The leading bits an address must have; the two address families never mix. */
  datatype Prefix = Prefix(v4: bool, bits: seq<bool>)

  datatype Addr = Addr(v4: bool, bits: seq<bool>)

  predicate Covers(p: Prefix, a: Addr) {
    p.v4 == a.v4 && p.bits <= a.bits
  }

  datatype PortRange = PortRange(lo: nat, hi: nat)

  predicate Contains(r: PortRange, port: nat) {
    r.lo <= port <= r.hi
  }

  datatype PacketInfo = PacketInfo(src: Addr, dst: Addr, proto: Proto, port: nat)

  datatype DstMatch = DstMatch(ports: PortRange, ips: seq<Prefix>) {
    predicate Matches(dst: Addr, port: nat) {
      Contains(ports, port) && exists p :: p in ips && Covers(p, dst)
    }
  }

  datatype SrcMatch = SrcMatch(pfxs: seq<Prefix>, caps: seq<Cap>)

  datatype Rule = Rule(src: SrcMatch, protos: seq<Proto>, dst: seq<DstMatch>) {
    predicate SharesCap(caps: seq<Cap>) {
      exists c :: c in caps && c in src.caps
    }

    predicate ReachesDst(info: PacketInfo) {
      exists d :: d in dst && d.Matches(info.dst, info.port)
    }

    /** The linear scan's test of one rule. */
    predicate Matches(info: PacketInfo, caps: seq<Cap>) {
      && info.proto in protos
      && ((exists p :: p in src.pfxs && Covers(p, info.src)) || SharesCap(caps))
      && ReachesDst(info)
    }
  }
}

/** Bitsets of small ids, tables of them, and the allocation of the ids. */
module IdSets {
  import opened Common

  /** A table of non-empty bitsets, keyed by whatever is indexed. */
  type BitTable<K> = map<K, set<nat>>

  predicate Has<K>(m: BitTable<K>, k: K, id: nat) {
    k in m && id in m[k]
  }

  ghost predicate NoEmpty<K(!new)>(m: BitTable<K>) {
    forall k :: k in m ==> m[k] != {}
  }

  function SetBit<K>(m: BitTable<K>, k: K, id: nat): BitTable<K> {
    m[k := (if k in m then m[k] else {}) + {id}]
  }

  function ClearBit<K>(m: BitTable<K>, k: K, id: nat): BitTable<K> {
    if k !in m then m
    else if m[k] - {id} == {} then m - {k}
    else m[k := m[k] - {id}]
  }

  lemma SetBitHas<K(!new)>(m: BitTable<K>, k: K, id: nat)
    ensures NoEmpty(m) ==> NoEmpty(SetBit(m, k, id))
    ensures forall j, i :: Has(SetBit(m, k, id), j, i) <==> Has(m, j, i) || (j == k && i == id)
  {
  }

  lemma ClearBitHas<K(!new)>(m: BitTable<K>, k: K, id: nat)
    requires NoEmpty(m)
    ensures NoEmpty(ClearBit(m, k, id))
    ensures forall j, i :: Has(ClearBit(m, k, id), j, i) <==> Has(m, j, i) && !(j == k && i == id)
  {
    if k in m {
      assert forall i :: i in m[k] ==> i == id || i in m[k] - {id};
    }
  }

  /** Set bit `id` under every key. */
  method SetAll<K(==, !new)>(m: BitTable<K>, keys: seq<K>, id: nat) returns (r: BitTable<K>)
    requires NoEmpty(m)
    ensures NoEmpty(r)
    ensures forall k, i :: Has(r, k, i) <==> Has(m, k, i) || (k in keys && i == id)
  {
    r := m;
    for n := 0 to |keys|
      invariant NoEmpty(r)
      invariant forall k, i :: Has(r, k, i) <==> Has(m, k, i) || (k in keys[..n] && i == id)
    {
      SetBitHas(r, keys[n], id);
      KeyAdded(keys, n);
      r := SetBit(r, keys[n], id);
    }
    assert keys[..|keys|] == keys;
  }

  lemma KeyAdded<K(!new)>(keys: seq<K>, n: nat)
    requires n < |keys|
    ensures forall k :: k in keys[..n + 1] <==> k in keys[..n] || k == keys[n]
  {
    assert keys[..n + 1] == keys[..n] + [keys[n]];
  }

  /** Clear bit `id` under every key, dropping the keys left with nothing. */
  method ClearAll<K(==, !new)>(m: BitTable<K>, keys: seq<K>, id: nat) returns (r: BitTable<K>)
    requires NoEmpty(m)
    ensures NoEmpty(r)
    ensures forall k, i :: Has(r, k, i) <==> Has(m, k, i) && !(k in keys && i == id)
  {
    r := m;
    for n := 0 to |keys|
      invariant NoEmpty(r)
      invariant forall k, i :: Has(r, k, i) <==> Has(m, k, i) && !(k in keys[..n] && i == id)
    {
      ClearBitHas(r, keys[n], id);
      KeyAdded(keys, n);
      r := ClearBit(r, keys[n], id);
    }
    assert keys[..|keys|] == keys;
  }

  /** Two tables of non-empty bitsets with the same bits are the same table. */
  lemma SameBits<K(!new)>(m: BitTable<K>, n: BitTable<K>)
    requires NoEmpty(m) && NoEmpty(n)
    requires forall k, i :: Has(m, k, i) <==> Has(n, k, i)
    ensures m == n
  {
    forall k | k in m
      ensures k in n && n[k] == m[k]
    {
      var i :| i in m[k];
      assert Has(n, k, i);
      forall x ensures x in m[k] <==> x in n[k] {
        assert Has(m, k, x) <==> Has(n, k, x);
      }
    }
    forall k | k in n
      ensures k in m
    {
      var i :| i in n[k];
      assert Has(m, k, i);
    }
  }

  /** The free slots of an id table. */
  function Holes<T>(v: seq<Option<T>>): set<nat> {
    set i: nat | i < |v| && v[i].None?
  }

  lemma HolesFilled<T>(v: seq<Option<T>>, i: nat, x: T)
    requires i < |v|
    ensures Holes(v[i := Some(x)]) == Holes(v) - {i}
  {
  }

  lemma HolesFreed<T>(v: seq<Option<T>>, i: nat)
    requires i < |v|
    ensures Holes(v[i := None]) == Holes(v) + {i}
  {
  }

  /** The freelist holds exactly the holes, and the last slot is in use. */
  ghost predicate Allocated<T>(v: seq<Option<T>>, free: set<nat>) {
    free == Holes(v) && (v != [] ==> v[|v| - 1].Some?)
  }

  lemma LeastExists(s: set<nat>, y: nat)
    requires y in s
    ensures exists m :: m in s && forall x :: x in s ==> m <= x
  {
    if z :| z in s && z < y {
      LeastExists(s, z);
    }
  }

  /** The lowest set bit. */
  function Least(s: set<nat>): (m: nat)
    requires s != {}
    ensures m in s && forall x :: x in s ==> m <= x
  {
    assert exists m :: m in s && forall x :: x in s ==> m <= x by {
      var y :| y in s;
      LeastExists(s, y);
    }
    var m :| m in s && forall x :: x in s ==> m <= x;
    m
  }

  /** Take the lowest id out of a freelist. */
  method PopFreelist(b: set<nat>) returns (first: Option<nat>, rest: set<nat>)
    ensures first.None? <==> b == {}
    ensures rest == if first.Some? then b - {first.value} else b
    ensures first.Some? ==> first.value in b && forall x :: x in b ==> first.value <= x
  {
    if b == {} { return None, b; }
    first, rest := Some(Least(b)), b - {Least(b)};
  }

  /** Pop the empty slots at the end, which are free implicitly, off the table and the freelist. */
  method Compact<T>(v: seq<Option<T>>, free: set<nat>) returns (r: seq<Option<T>>, free': set<nat>)
    requires free == Holes(v)
    ensures r <= v && Allocated(r, free')
    ensures forall i :: |r| <= i < |v| ==> v[i].None?
  {
    r := v;
    while r != [] && r[|r| - 1].None?
      invariant r <= v
      invariant forall i :: |r| <= i < |v| ==> v[i].None?
    {
      r := r[..|r| - 1];
    }
    free' := set i | i in free && i < |r|;
  }

  /** The ids of a set in ascending order. */
  function Ascending(s: set<nat>): seq<nat> {
    if s == {} then [] else [Least(s)] + Ascending(s - {Least(s)})
  }

  /** Every id once, in ascending order. */
  lemma AscendingSpec(s: set<nat>)
    ensures |Ascending(s)| == |s|
    ensures forall i :: i in Ascending(s) <==> i in s
    ensures forall i, j :: 0 <= i < j < |Ascending(s)| ==> Ascending(s)[i] < Ascending(s)[j]
  {
    AscendingHas(s);
    AscendingSorted(s);
  }

  lemma {:induction false} AscendingHas(s: set<nat>)
    ensures |Ascending(s)| == |s|
    ensures forall i :: i in Ascending(s) <==> i in s
  {
    if s != {} {
      AscendingHas(s - {Least(s)});
    }
  }

  lemma {:induction false} AscendingSorted(s: set<nat>)
    ensures forall i, j :: 0 <= i < j < |Ascending(s)| ==> Ascending(s)[i] < Ascending(s)[j]
  {
    if s != {} {
      var m, rest := Least(s), Ascending(s - {Least(s)});
      AscendingSorted(s - {m});
      AscendingHas(s - {m});
      forall j | 0 <= j < |rest| ensures m < rest[j] {
        assert rest[j] in rest;
      }
    }
  }

  /** Adding an id above all the others puts it last. */
  lemma {:induction false} AscendingAppend(s: set<nat>, x: nat)
    requires forall y :: y in s ==> y < x
    ensures Ascending(s + {x}) == Ascending(s) + [x]
  {
    if s == {} {
      assert s + {x} == {x} && Least({x}) == x && {x} - {x} == {};
    } else {
      var m := Least(s);
      assert Least(s + {x}) == m;
      assert s + {x} - {m} == (s - {m}) + {x};
      AscendingAppend(s - {m}, x);
    }
  }
}
