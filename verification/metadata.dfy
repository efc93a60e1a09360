/** Metadata attached to a resolver address: the comparison `mdValue.Equal`
    and the accessors `Get` and `Set` over the address's attributes. */
module Metadata {
  import opened Wrappers

  /** A non-nil `metadata.MD`: keys to lists of values. */
  type Pairs = map<string, seq<string>>

  /** A `metadata.MD`, None being the nil map. */
  type MD = Option<Pairs>

  /** The entries of a metadata map; the nil map has none. */
  function Entries(md: MD): Pairs
  {
    if md.None? then map[] else md.value
  }

  /** A value stored in an address's attributes (a Go `interface{}`): an
      `mdValue`, or a value of any other type. */
  datatype AttrValue = MdValue(md: MD) | OtherValue(id: string)

  /** An attribute key: Go compares interface keys by dynamic type and value. */
  datatype AttrKey = AttrKey(typeName: string, name: string)

  /** `mdKey`, the key under which an address's metadata is stored. */
  const MdKey: AttrKey := AttrKey("mdKeyType", "grpc.internal.address.metadata")

  /** A `resolver.Address`: its address string, server name, and a possibly
      nil pointer to its attributes. */
  datatype Address = Address(addr: string, serverName: string, attributes: Option<map<AttrKey, AttrValue>>)

  /** `om[k]` in Go: the list stored at k, or the nil (empty) list. */
  function Lookup(m: Pairs, k: string): (v: seq<string>)
    ensures k !in m ==> v == []
    ensures k in m ==> v == m[k]
  {
    if k in m then m[k] else []
  }

  /** What `mdValue.Equal` decides: the same number of keys, and every key
      of `m` reads the same list in `o`, a missing key reading as empty. */
  predicate SameEntries(m: Pairs, o: Pairs)
  {
    |m| == |o| && forall k :: k in m ==> Lookup(o, k) == m[k]
  }

  /** `mdValue.Equal`: a read-only loop over the keys of `m` (in any order)
      with an inner loop over each list, returning early on a difference. */
  method Equal(m: MD, o: AttrValue) returns (eq: bool)
    ensures eq <==> o.MdValue? && SameEntries(Entries(m), Entries(o.md))
  {
    if !o.MdValue? {
      return false;
    }
    var mm, om := Entries(m), Entries(o.md);
    if |mm| != |om| {
      return false;
    }
    var todo := mm.Keys;
    while todo != {}
      invariant todo <= mm.Keys
      invariant forall k :: k in mm && k !in todo ==> Lookup(om, k) == mm[k]
      decreases todo
    {
      var k :| k in todo;
      var v, ov := mm[k], Lookup(om, k);
      if |ov| != |v| {
        return false;
      }
      for i := 0 to |v|
        invariant forall j :: 0 <= j < i ==> ov[j] == v[j]
      {
        if ov[i] != v[i] {
          return false;
        }
      }
      assert ov == v;
      todo := todo - {k};
    }
    return true;
  }

  /** Every metadata map equals itself. */
  lemma SameEntriesReflexive(m: Pairs)
    ensures SameEntries(m, m)
  {
  }

  /** A key of `m` whose list in `o` differs in length or at some position
      makes the two unequal. */
  lemma SameEntriesDetectsDifference(m: Pairs, o: Pairs, k: string, i: nat)
    requires k in m
    requires |Lookup(o, k)| != |m[k]| || (i < |m[k]| && i < |Lookup(o, k)| && Lookup(o, k)[i] != m[k][i])
    ensures !SameEntries(m, o)
  {
  }

  /** A key missing from the other map reads as an empty list, so the
      comparison is not symmetric. */
  lemma SameEntriesNotSymmetric()
    ensures SameEntries(map["a" := []], map["c" := ["x"]])
    ensures !SameEntries(map["c" := ["x"]], map["a" := []])
  {
  }

  /** When no key of `m` holds an empty list, the comparison is exactly map
      equality. */
  lemma SameEntriesIsEqualityWithoutEmptyLists(m: Pairs, o: Pairs)
    requires forall k :: k in m ==> m[k] != []
    ensures SameEntries(m, o) <==> m == o
  {
    if SameEntries(m, o) {
      assert m.Keys <= o.Keys by {
        forall k | k in m ensures k in o {
          assert Lookup(o, k) == m[k] != [];
        }
      }
      var extra := o.Keys - m.Keys;
      assert |o.Keys| == |m.Keys| + |extra| by {
        assert o.Keys == m.Keys + extra;
        assert m.Keys !! extra;
      }
      assert extra == {};
      assert m.Keys == o.Keys;
    }
  }

  /** `attrs.WithValue(k, v)` over an assumed map semantics: a copy with k
      bound to v, starting from no entries when `attrs` is nil. */
  function WithValue(attrs: Option<map<AttrKey, AttrValue>>, k: AttrKey, v: AttrValue): (r: map<AttrKey, AttrValue>)
    ensures k in r && r[k] == v
    ensures forall j :: j != k ==> (j in r <==> attrs.Some? && j in attrs.value)
    ensures forall j :: j != k && j in r ==> r[j] == attrs.value[j]
  {
    if attrs.None? then map[k := v] else attrs.value[k := v]
  }

  /** `Get`: nil without attributes; otherwise the `mdValue` stored under
      `MdKey`, or nil when there is none or it has another type. */
  function Get(addr: Address): (md: MD)
    ensures addr.attributes.None? ==> md.None?
    ensures addr.attributes.Some? && MdKey in addr.attributes.value && addr.attributes.value[MdKey].MdValue?
            ==> md == addr.attributes.value[MdKey].md
    ensures addr.attributes.Some? && (MdKey !in addr.attributes.value || !addr.attributes.value[MdKey].MdValue?)
            ==> md.None?
  {
    if addr.attributes.None? then None
    else if MdKey in addr.attributes.value && addr.attributes.value[MdKey].MdValue? then
      addr.attributes.value[MdKey].md
    else None
  }

  /** `Set`: a copy of the address whose attributes bind `MdKey` to md,
      every other field and attribute kept. */
  function Set(addr: Address, md: MD): (a: Address)
    ensures Get(a) == md
    ensures a.addr == addr.addr && a.serverName == addr.serverName
    ensures a.attributes.Some?
    ensures forall k :: k != MdKey ==>
              (k in a.attributes.value <==> addr.attributes.Some? && k in addr.attributes.value)
    ensures forall k :: k != MdKey && k in a.attributes.value ==> a.attributes.value[k] == addr.attributes.value[k]
  {
    addr.(attributes := Some(WithValue(addr.attributes, MdKey, MdValue(md))))
  }
}
