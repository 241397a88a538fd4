/**
 * The C half of the Go runtime in lib/libgo.c: the identity hash and
 * equality of map keys, string equality and three-way comparison, type
 * descriptor equality, slice append and string building.
 *
 * A Go string (`struct go_string`, a data pointer and a length) is modelled
 * by its bytes. Pointers the runtime compares by identity (a pointer to a
 * string header, a pointer to a type descriptor) are addresses into a
 * `Heap`; `None` is the null pointer. memcmp is the C library's: it compares
 * bytes as unsigned char and its sign is that of the first differing byte.
 */
module GoRuntime {
  import opened MemLayout
  import opened Wrappers

  type Byte = u8

  // ---------------------------------------------------------------- hashing

  /** The seed of the identity hash. */
  const HASH_SEED: u32 := 5381

  /** djb2 over a 32-bit uintptr_t: key bytes folded in from first to last. */
  function Djb2(key: seq<Byte>): u32
    decreases |key|
  {
    if |key| == 0 then HASH_SEED
    else (Djb2(key[..|key| - 1]) * 33 + key[|key| - 1]) % 0x1_0000_0000
  }

  /** The empty key hashes to the seed. */
  lemma HashEmpty()
    ensures Djb2([]) == 5381
  {
  }

  /** One more byte multiplies the hash by 33 and adds the byte, modulo 2^32. */
  lemma HashSnoc(key: seq<Byte>, b: Byte)
    ensures Djb2(key + [b]) == (Djb2(key) * 33 + b) % 0x1_0000_0000
  {
    assert (key + [b])[..|key|] == key;
  }

  /** __go_type_hash_identity: djb2 over the first `keySize` bytes of the key. */
  method TypeHashIdentity(key: seq<Byte>, keySize: u32) returns (hash: u32)
    requires keySize <= |key|
    ensures hash == Djb2(key[..keySize])
  {
    hash := HASH_SEED;
    var i: u32 := 0;
    while i < keySize
      invariant i <= keySize
      invariant hash == Djb2(key[..i])
    {
      assert key[..i + 1][..i] == key[..i];
      hash := (hash * 33 + key[i]) % 0x1_0000_0000;
      i := i + 1;
    }
    assert key[..keySize] == key[..i];
  }

  // ------------------------------------------------------------- comparison

  /** Byte-wise lexicographic order: the first differing byte decides, else the shorter is smaller. */
  predicate LexLess(s: seq<Byte>, t: seq<Byte>)
    decreases |s|
  {
    if |s| == 0 then |t| > 0
    else |t| > 0 && (s[0] < t[0] || (s[0] == t[0] && LexLess(s[1..], t[1..])))
  }

  /** The order is strict: never both ways round, so never of a string with itself. */
  lemma {:induction false} LexLessAsymmetric(s: seq<Byte>, t: seq<Byte>)
    ensures !(LexLess(s, t) && LexLess(t, s))
    decreases |s|
  {
    if |s| > 0 && |t| > 0 && s[0] == t[0] {
      LexLessAsymmetric(s[1..], t[1..]);
    }
  }

  /** Being smaller within the first `n` bytes makes the whole string smaller. */
  lemma {:induction false} LexLessOfPrefixes(s: seq<Byte>, t: seq<Byte>, n: nat)
    requires n <= |s| && n <= |t| && LexLess(s[..n], t[..n])
    ensures LexLess(s, t)
    decreases n
  {
    if s[0] == t[0] {
      assert s[..n][1..] == s[1..][..n - 1];
      assert t[..n][1..] == t[1..][..n - 1];
      LexLessOfPrefixes(s[1..], t[1..], n - 1);
    }
  }

  /** When one string is a prefix of the other, the shorter one is smaller. */
  lemma {:induction false} LexLessOfCommonPrefix(s: seq<Byte>, t: seq<Byte>)
    requires var m := if |s| < |t| then |s| else |t|; s[..m] == t[..m]
    ensures LexLess(s, t) <==> |s| < |t|
    decreases |s|
  {
    if |s| > 0 && |t| > 0 {
      var m := if |s| < |t| then |s| else |t|;
      assert s[0] == s[..m][0] && t[0] == t[..m][0];
      assert s[1..][..m - 1] == s[..m][1..];
      assert t[1..][..m - 1] == t[..m][1..];
      LexLessOfCommonPrefix(s[1..], t[1..]);
    }
  }

  /**
   * memcmp of the first `n` bytes: 0 when they agree, otherwise the
   * difference of the first differing pair.
   */
  function Memcmp(a: seq<Byte>, b: seq<Byte>, n: nat): (r: int)
    requires n <= |a| && n <= |b|
    ensures r == 0 <==> a[..n] == b[..n]
    ensures r < 0 <==> LexLess(a[..n], b[..n])
    ensures r > 0 <==> LexLess(b[..n], a[..n])
    decreases n
  {
    if n == 0 then 0
    else if a[0] != b[0] then
      assert a[..n][0] == a[0] && b[..n][0] == b[0];
      a[0] - b[0]
    else
      assert a[..n] == [a[0]] + a[1..][..n - 1];
      assert b[..n] == [b[0]] + b[1..][..n - 1];
      Memcmp(a[1..], b[1..], n - 1)
  }

  /** __go_type_equal_identity: the two keys agree on their first `keySize` bytes. */
  function TypeEqualIdentity(k1: seq<Byte>, k2: seq<Byte>, keySize: u32): (r: bool)
    requires keySize <= |k1| && keySize <= |k2|
    ensures r <==> forall i :: 0 <= i < keySize ==> k1[i] == k2[i]
  {
    var c := Memcmp(k1, k2, keySize);
    assert c == 0 <==> forall i :: 0 <= i < keySize ==> k1[..keySize][i] == k2[..keySize][i];
    c == 0
  }

  /**
   * __go_strcmp: memcmp of the common length decides when it finds a
   * difference; otherwise the shorter string is smaller.
   */
  function Strcmp(s1: seq<Byte>, s2: seq<Byte>): (r: int)
    ensures r == 0 <==> s1 == s2
    ensures r < 0 <==> LexLess(s1, s2)
    ensures r > 0 <==> LexLess(s2, s1)
  {
    var m := if |s1| < |s2| then |s1| else |s2|;
    var c := Memcmp(s1, s2, m);
    LexLessAsymmetric(s1, s2);
    if c != 0 then
      if c < 0 then LexLessOfPrefixes(s1, s2, m); c
      else LexLessOfPrefixes(s2, s1, m); c
    else
      LexLessOfCommonPrefix(s1, s2);
      LexLessOfCommonPrefix(s2, s1);
      if |s1| < |s2| then -1
      else if |s1| > |s2| then 1
      else assert s1 == s1[..m] && s2 == s2[..m]; 0
  }

  /** __go_strings_equal: equal lengths and equal bytes. */
  function StringsEqual(s1: seq<Byte>, s2: seq<Byte>): (r: bool)
    ensures r <==> s1 == s2
  {
    |s1| == |s2| && Memcmp(s1, s2, |s1|) == 0
  }

  // ---------------------------------------------------------- type descriptors

  /** The fields of struct go_type_descriptor that descriptor equality reads. */
  datatype TypeDescriptor = TypeDescriptor(code: bv8, hash: u32, reflection: Option<nat>)

  /** The memory the runtime reaches through pointers: string headers and type descriptors. */
  datatype Heap = Heap(strings: map<nat, seq<Byte>>, types: map<nat, TypeDescriptor>)

  /** A string pointer that is null or points at a string header. */
  predicate StringPtrOk(h: Heap, p: Option<nat>)
  {
    p.Some? ==> p.value in h.strings
  }

  /** A descriptor pointer that is null or points at a descriptor, whose reflection string exists. */
  predicate TypePtrOk(h: Heap, p: Option<nat>)
  {
    p.Some? ==> p.value in h.types && StringPtrOk(h, h.types[p.value].reflection)
  }

  /** What a string pointer denotes: nothing, or the string's bytes. */
  function StringAt(h: Heap, p: Option<nat>): Option<seq<Byte>>
    requires StringPtrOk(h, p)
  {
    if p.None? then None else Some(h.strings[p.value])
  }

  /** What a descriptor pointer denotes: nothing, or the descriptor's code, hash and name. */
  function TypeAt(h: Heap, p: Option<nat>): Option<(bv8, u32, Option<seq<Byte>>)>
    requires TypePtrOk(h, p)
  {
    if p.None? then None
    else var td := h.types[p.value]; Some((td.code, td.hash, StringAt(h, td.reflection)))
  }

  /** __go_ptr_strings_equal: the same pointer, or two non-null pointers to equal strings. */
  function PtrStringsEqual(h: Heap, ps1: Option<nat>, ps2: Option<nat>): (r: bool)
    requires StringPtrOk(h, ps1) && StringPtrOk(h, ps2)
    ensures r <==> StringAt(h, ps1) == StringAt(h, ps2)
  {
    if ps1 == ps2 then true
    else if ps1.None? || ps2.None? then false
    else StringsEqual(h.strings[ps1.value], h.strings[ps2.value])
  }

  /**
   * __go_type_descriptors_equal: the same pointer, or two non-null
   * descriptors with equal code, equal hash and equal reflection strings.
   */
  function TypeDescriptorsEqual(h: Heap, td1: Option<nat>, td2: Option<nat>): (r: bool)
    requires TypePtrOk(h, td1) && TypePtrOk(h, td2)
    ensures td1 == td2 ==> r
    ensures td1.None? != td2.None? ==> !r
    ensures r <==> TypeAt(h, td1) == TypeAt(h, td2)
  {
    if td1 == td2 then true
    else if td1.None? || td2.None? then false
    else
      var d1 := h.types[td1.value];
      var d2 := h.types[td2.value];
      if d1.code != d2.code || d1.hash != d2.hash then false
      else PtrStringsEqual(h, d1.reflection, d2.reflection)
  }

  /** Descriptor equality is an equivalence: symmetric and transitive (reflexivity is in its contract). */
  lemma TypeDescriptorsEquivalence(h: Heap, t1: Option<nat>, t2: Option<nat>, t3: Option<nat>)
    requires TypePtrOk(h, t1) && TypePtrOk(h, t2) && TypePtrOk(h, t3)
    ensures TypeDescriptorsEqual(h, t1, t2) == TypeDescriptorsEqual(h, t2, t1)
    ensures TypeDescriptorsEqual(h, t1, t2) && TypeDescriptorsEqual(h, t2, t3) ==> TypeDescriptorsEqual(h, t1, t3)
  {
  }

  const GO_PTR: bv8 := 22
  const GO_UNSAFE_POINTER: bv8 := 26
  const GO_DIRECT_IFACE: bv8 := 0x20
  const GO_CODE_MASK: bv8 := 0x1f

  /** __go_is_pointer_type: the kind in the low five bits of the code is a pointer kind. */
  function IsPointerType(code: bv8): (r: bool)
    ensures r <==> (code as int) % 32 == 22 || (code as int) % 32 == 26
  {
    var kind := code & GO_CODE_MASK;
    assert kind as int == (code as int) % 32;
    kind == GO_PTR || kind == GO_UNSAFE_POINTER
  }

  // ------------------------------------------------------------ buffers

  /**
   * struct go_open_array: a slice. `element_size` is abstracted away by
   * giving the buffer elements of type T.
   */
  datatype OpenArray<T> = OpenArray(values: array<T>, count: int, capacity: int)

  /** A slice whose count and capacity lie within its buffer. */
  predicate SliceOk<T>(a: OpenArray<T>)
  {
    0 <= a.count <= a.capacity <= a.values.Length
  }

  /** memcpy / memmove into `dst` at `at`: afterwards `dst` holds `src` there and is unchanged elsewhere. */
  method CopyInto<T>(dst: array<T>, at: nat, src: seq<T>)
    requires at + |src| <= dst.Length
    modifies dst
    ensures dst[..] == old(dst[..at]) + src + old(dst[at + |src|..])
  {
    ghost var d0 := dst[..];
    for i := 0 to |src|
      invariant forall j :: 0 <= j < dst.Length ==> dst[j] == if at <= j < at + i then src[j - at] else d0[j]
    {
      dst[at + i] := src[i];
    }
    assert dst[..] == d0[..at] + src + d0[at + |src|..];
  }

  /**
   * __go_append: appends the first `bcount` elements at `bvalues` (a null
   * pointer is `None`; memmove reads them as they were on entry) to `a`.
   * When they fit in the capacity they are written into the buffer `a`
   * already shares with its callers; otherwise the slice moves to a fresh
   * buffer of exactly the new count. An overflowing count panics.
   */
  method Append<T(0)>(a: OpenArray<T>, bvalues: Option<seq<T>>, bcount: u32) returns (r: Exit<OpenArray<T>>)
    requires SliceOk(a)
    requires bvalues.Some? ==> bcount <= |bvalues.value|
    modifies a.values
    ensures bvalues.None? || bcount == 0 ==> r == Returned(a) && unchanged(a.values)
    ensures bvalues.Some? && bcount > 0 ==> (r.Panicked? <==> bcount > INT_MAX - a.count)
    ensures r.Panicked? ==> unchanged(a.values)
    ensures r.Returned? ==> SliceOk(r.value)
    ensures r.Returned? && bvalues.Some? && bcount > 0 ==>
              r.value.count == a.count + bcount &&
              r.value.values[..r.value.count] == old(a.values[..a.count]) + bvalues.value[..bcount]
    ensures r.Returned? && bvalues.Some? && bcount > 0 && a.count + bcount > a.capacity ==>
              fresh(r.value.values) && r.value.capacity == r.value.count && unchanged(a.values)
    ensures r.Returned? && bvalues.Some? && bcount > 0 && a.count + bcount <= a.capacity ==>
              r.value.values == a.values && r.value.capacity == a.capacity &&
              a.values[..a.count] == old(a.values[..a.count]) &&
              a.values[r.value.count..] == old(a.values[r.value.count..])
  {
    if bvalues.None? || bcount == 0 {
      return Returned(a);
    }
    if bcount > INT_MAX - a.count {
      return Panicked;
    }
    var count := a.count + bcount;
    var values := a.values;
    var capacity := a.capacity;
    if count > a.capacity {
      var p := new T[count];
      CopyInto(p, 0, a.values[..a.count]);
      values := p;
      capacity := count;
    }
    CopyInto(values, a.count, bvalues.value[..bcount]);
    r := Returned(OpenArray(values, count, capacity));
  }

  /** __go_string_plus: a fresh buffer holding the bytes of `s1` followed by those of `s2`. */
  method StringPlus(s1: seq<Byte>, s2: seq<Byte>) returns (p: array<Byte>)
    requires |s1| + |s2| <= INT_MAX
    ensures fresh(p)
    ensures p.Length == |s1| + |s2| && p[..] == s1 + s2
  {
    p := new Byte[|s1| + |s2|];
    CopyInto(p, 0, s1);
    CopyInto(p, |s1|, s2);
  }

  /** __go_byte_array_to_string: a fresh buffer holding a copy of the first `length` bytes of `data`. */
  method ByteArrayToString(data: array<Byte>, length: nat) returns (p: array<Byte>)
    requires length <= data.Length
    ensures fresh(p)
    ensures p[..] == data[..length]
  {
    p := new Byte[length];
    CopyInto(p, 0, data[..length]);
  }
}
