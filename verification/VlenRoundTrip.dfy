// End to end: strings packed into collections, placed one after another in a
// file, and read back through their references.

module VlenRoundTrip {
  import opened Common
  import opened GlobalHeap
  import opened GlobalHeapWriter
  import opened Values

  // ------------------------------------------------------------------
  // Placing collections in a file
  // ------------------------------------------------------------------

  function Joined(groups: seq<seq<Obj>>): seq<Byte> {
    if groups == [] then [] else Serialized(groups[0]) + Joined(groups[1..])
  }

  /** Offset of collection `k` from the first one. */
  function Offset(groups: seq<seq<Obj>>, k: nat): nat {
    if k == 0 || groups == [] then 0 else |Serialized(groups[0])| + Offset(groups[1..], k - 1)
  }

  lemma {:induction false} CollectionStored(file: seq<Byte>, base: nat, groups: seq<seq<Obj>>, k: nat)
    requires k < |groups| && At(file, base, Joined(groups))
    ensures At(file, base + Offset(groups, k), Serialized(groups[k]))
    decreases k
  {
    hide Serialized, At;
    AtSplit(file, base, Serialized(groups[0]), Joined(groups[1..]));
    if k > 0 {
      CollectionStored(file, base + |Serialized(groups[0])|, groups[1..], k - 1);
    }
  }

  // ------------------------------------------------------------------
  // References
  // ------------------------------------------------------------------

  /** The 16-byte reference to an object of `length` bytes. */
  function EncodeRef(length: nat, address: nat, index: nat): (r: seq<Byte>)
    ensures |r| == 16
  {
    LeBytes(length, 4) + LeBytes(address, 8) + LeBytes(index, 4)
  }

  lemma RefRoundTrip(length: nat, address: nat, index: nat)
    requires length < 0x1_0000_0000 && address < 0x1_0000_0000_0000_0000 && index < 0x1_0000
    ensures ParseVlenRef(EncodeRef(length, address, index)) == Ok(VlenRef(length, address, index))
  {
    Pow256Values();
    LeRoundTrip(length, 4);
    LeRoundTrip(address, 8);
    LeRoundTrip(index, 4);
    var r := EncodeRef(length, address, index);
    assert r[0..4] == LeBytes(length, 4);
    assert r[4..12] == LeBytes(address, 8);
    assert r[12..16] == LeBytes(index, 4);
  }

  /** Reference of string `i`: its length, and where the location map put it. */
  function StringRef(base: nat, strings: seq<Obj>, i: nat): (r: seq<Byte>)
    requires i < |strings|
    ensures |r| == 16
  {
    var groups, loc := Pack([], strings), Locate(0, [], strings)[i];
    EncodeRef(|strings[i]|, base + Offset(groups, loc.collection), loc.index)
  }

  function StringRefs(base: nat, strings: seq<Obj>, n: nat): (r: seq<Byte>)
    requires n <= |strings|
    ensures |r| == 16 * n
  {
    if n == 0 then [] else StringRefs(base, strings, n - 1) + StringRef(base, strings, n - 1)
  }

  lemma {:induction false} RefAt(base: nat, strings: seq<Obj>, n: nat, i: nat)
    requires i < n <= |strings|
    ensures Ref(StringRefs(base, strings, n), i) == StringRef(base, strings, i)
  {
    hide StringRef;
    if i < n - 1 {
      RefAt(base, strings, n - 1, i);
      assert Ref(StringRefs(base, strings, n), i) == Ref(StringRefs(base, strings, n - 1), i);
    }
  }

  // ------------------------------------------------------------------
  // The round trip
  // ------------------------------------------------------------------

  predicate Storable(prefix: seq<Byte>, strings: seq<Obj>, suffix: seq<Byte>) {
    && |prefix + Joined(Pack([], strings)) + suffix| < 0x1_0000_0000_0000_0000
    && |strings| < 0x1_0000_0000
    && forall i :: 0 <= i < |strings| ==> |strings[i]| < 0x1_0000_0000
  }

  /** String `i` is found through its reference. */
  lemma ObjectFound(prefix: seq<Byte>, strings: seq<Obj>, suffix: seq<Byte>, i: nat)
    requires Storable(prefix, strings, suffix) && i < |strings|
    ensures var file := prefix + Joined(Pack([], strings)) + suffix;
      var r := ParseVlenRef(StringRef(|prefix|, strings, i));
      r.Ok? && r.value.length == |strings[i]|
      && HeapObject(file, r.value.address, r.value.index) == Ok(strings[i])
  {
    hide Joined, Serialized, Parsed, Flatten, Content, EncodeRef, At, Pack, Locate, Offset, ParseVlenRef,
      Indexed, FitsFile;
    var groups, loc := Pack([], strings), Locate(0, [], strings)[i];
    var file := prefix + Joined(groups) + suffix;
    assert [] + strings == strings;
    PackIsSplit([], strings);
    LocationsAreExact(0, [], strings, i);
    var group := groups[loc.collection];
    ObjectCapNeverBinds(group);
    AtEmbedded(prefix, Joined(groups), suffix);
    CollectionStored(file, |prefix|, groups, loc.collection);
    var address := |prefix| + Offset(groups, loc.collection);
    StoredFits(file, address, group);
    ParsesWhereStored(file, address, group);
    RefRoundTrip(|strings[i]|, address, loc.index);
  }

  lemma StoredFits(file: seq<Byte>, address: nat, group: seq<Obj>)
    requires |file| < 0x1_0000_0000_0000_0000 && At(file, address, Serialized(group))
    ensures FitsFile(group) && address <= |file|
  {
    assert |Serialized(group)| == DeclaredSize(Content(group));
  }

  /** What comes back for each string: the part before its first NUL. */
  lemma StringDecodes(env: Env, prefix: seq<Byte>, strings: seq<Obj>, suffix: seq<Byte>, i: nat)
    requires Storable(prefix, strings, suffix) && i < |strings|
    requires env.file == prefix + Joined(Pack([], strings)) + suffix
    requires env.utf8(TruncateAtNul(strings[i]))
    ensures VlenString(env, StringRef(|prefix|, strings, i)) == Ok(TruncateAtNul(strings[i]))
  {
    hide Joined, HeapObject, Pack, Storable, StringRef, ParseVlenRef;
    ObjectFound(prefix, strings, suffix, i);
  }

  lemma {:induction false} StringsDecode(env: Env, prefix: seq<Byte>, strings: seq<Obj>, suffix: seq<Byte>, n: nat)
    requires Storable(prefix, strings, suffix) && n <= |strings|
    requires env.file == prefix + Joined(Pack([], strings)) + suffix
    requires forall i :: 0 <= i < |strings| ==> env.utf8(TruncateAtNul(strings[i]))
    ensures var r := StringsUpTo(env, StringRefs(|prefix|, strings, |strings|), n);
      r.Ok? && |r.value| == n && forall i :: 0 <= i < n ==> r.value[i] == TruncateAtNul(strings[i])
    decreases n
  {
    hide Joined, Pack, Storable, StringRef, StringRefs, VlenString, TruncateAtNul;
    if n > 0 {
      StringsDecode(env, prefix, strings, suffix, n - 1);
      RefAt(|prefix|, strings, |strings|, n - 1);
      StringDecodes(env, prefix, strings, suffix, n - 1);
    }
  }

  predicate NulFree(s: Obj) { 0 !in s }

  lemma TruncationIsIdentity(s: Obj)
    ensures TruncateAtNul(s) == s <==> NulFree(s)
  {
    var t := TruncateAtNul(s);
    if |t| < |s| {
      assert s[|t|] == 0 && s[|t|] in s;
    }
  }

  /** Main result: packing, placing, referencing and decoding any list of UTF-8
      strings after any prefix succeeds, and returns the original list exactly
      when no string contains a NUL. */
  lemma StringsRoundTrip(env: Env, prefix: seq<Byte>, strings: seq<Obj>, suffix: seq<Byte>)
    requires Storable(prefix, strings, suffix)
    requires env.file == prefix + Joined(Pack([], strings)) + suffix
    requires forall i :: 0 <= i < |strings| ==> env.utf8(TruncateAtNul(strings[i]))
    ensures var r := VlenStrings(env, StringRefs(|prefix|, strings, |strings|), |strings|);
      r.Ok? && (r.value == strings <==> forall i :: 0 <= i < |strings| ==> NulFree(strings[i]))
  {
    hide Joined, Pack, Storable, StringRef, StringRefs, VlenString, TruncateAtNul, NulFree, StringsUpTo;
    StringsDecode(env, prefix, strings, suffix, |strings|);
    var out := VlenStrings(env, StringRefs(|prefix|, strings, |strings|), |strings|).value;
    forall i | 0 <= i < |strings| ensures out[i] == strings[i] <==> NulFree(strings[i]) {
      TruncationIsIdentity(strings[i]);
    }
  }
}
