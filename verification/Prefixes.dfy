/** Addresses, prefixes and the word-wise algorithms on them (`prefix.rs`).

    The abstraction is a key: the sequence of the first `len` bits, most significant
    first.  Everything the trie does is stated on keys; the methods here are the
    programs that compute on words and are proved to agree with them. */
module Prefixes {
  import opened Words

  const MAX_PREFIX_LEN := 128

  type Key = seq<bool>

  /** The keys a prefix can have. */
  type PrefixKey = k: Key | |k| <= MAX_PREFIX_LEN witness []

  type Address = a: seq<Word> | |a| == 4 witness [0, 0, 0, 0]

  /** Position 0 is the most significant bit of word 0. */
  predicate BitAt(a: Address, pos: nat)
    requires pos < MAX_PREFIX_LEN
  {
    Bit(a[pos / 32], 31 - pos % 32)
  }

  function AddressKey(a: Address): (k: Key)
    ensures |k| == MAX_PREFIX_LEN
  {
    seq(MAX_PREFIX_LEN, i requires 0 <= i < MAX_PREFIX_LEN => BitAt(a, i))
  }

  lemma AddressKeyInjective(a: Address, b: Address)
    requires AddressKey(a) == AddressKey(b)
    ensures a == b
  {
    Pow2Is32();
    forall w | 0 <= w < 4 ensures a[w] == b[w] {
      forall n: nat | n < 32 ensures Bit(a[w], n) == Bit(b[w], n) {
        var pos := 32 * w + (31 - n);
        assert pos / 32 == w && 31 - pos % 32 == n;
        assert BitAt(a, pos) == AddressKey(a)[pos] == AddressKey(b)[pos] == BitAt(b, pos);
      }
      SameBits(a[w], b[w], 32);
    }
  }

  datatype RawPrefix = Prefix(bits: Address, len: nat)

  /** Bits at positions `len..128` are zero. */
  predicate Canonical(p: RawPrefix) {
    p.len <= MAX_PREFIX_LEN && forall i: nat | p.len <= i < MAX_PREFIX_LEN :: !BitAt(p.bits, i)
  }

  lemma ZeroPrefixIsCanonical()
    ensures Canonical(Prefix([0, 0, 0, 0], 0))
  {
    forall n: nat ensures !Bit(0, n) {
      ZeroBit(n);
    }
  }

  type Prefix = p: RawPrefix | Canonical(p) witness (ZeroPrefixIsCanonical(); Prefix([0, 0, 0, 0], 0))

  const DEFAULT_PREFIX: Prefix := (ZeroPrefixIsCanonical(); Prefix([0, 0, 0, 0], 0))

  function KeyOf(p: Prefix): (k: PrefixKey)
    ensures |k| == p.len
  {
    AddressKey(p.bits)[..p.len]
  }

  /** Canonical prefixes are bytewise equal exactly when they denote the same key. */
  lemma SameKey(p: Prefix, q: Prefix)
    ensures p == q <==> KeyOf(p) == KeyOf(q)
  {
    if KeyOf(p) == KeyOf(q) {
      forall i: nat | i < MAX_PREFIX_LEN ensures AddressKey(p.bits)[i] == AddressKey(q.bits)[i] {
        if i < p.len {
          assert KeyOf(p)[i] == KeyOf(q)[i];
        }
      }
      assert AddressKey(p.bits) == AddressKey(q.bits);
      AddressKeyInjective(p.bits, q.bits);
    }
  }

  // ----- common prefixes -----

  /** Length of the longest common prefix of two keys. */
  function CommonLen(a: Key, b: Key): (c: nat)
    ensures c <= |a| && c <= |b|
    ensures a[..c] == b[..c]
    ensures c < |a| && c < |b| ==> a[c] != b[c]
  {
    if a == [] || b == [] || a[0] != b[0] then 0
    else
      var c := CommonLen(a[1..], b[1..]);
      assert a[..c + 1] == [a[0]] + a[1..][..c];
      assert b[..c + 1] == [b[0]] + b[1..][..c];
      c + 1
  }

  /** Those three facts leave one value. */
  lemma CommonLenUnique(a: Key, b: Key, c: nat)
    requires c <= |a| && c <= |b|
    requires forall i | 0 <= i < c :: a[i] == b[i]
    requires c < |a| && c < |b| ==> a[c] != b[c]
    ensures c == CommonLen(a, b)
  {
    var d := CommonLen(a, b);
    forall i | 0 <= i < d ensures a[i] == b[i] {
      assert a[..d][i] == b[..d][i];
    }
  }

  /** One key is a prefix of another exactly when it is all they have in common. */
  lemma CommonLenCovers(a: Key, b: Key)
    ensures CommonLen(a, b) == |a| <==> a <= b
    ensures CommonLen(a, b) == |b| <==> b <= a
  {
    var c := CommonLen(a, b);
    assert a[..|a|] == a && b[..|b|] == b;
  }

  function Min(a: nat, b: nat): nat {
    if a <= b then a else b
  }

  /** The first `len` bits of an address; a longer length takes all 128. */
  function Take(a: Address, len: nat): Key {
    AddressKey(a)[..Min(len, MAX_PREFIX_LEN)]
  }

  lemma WordBits(a: Address, b: Address, w: nat, z: nat)
    requires w < 4
    requires z == LeadingZeros(XorWord(a[w], b[w]))
    ensures forall i: nat | 32 * w <= i < 32 * w + z :: BitAt(a, i) == BitAt(b, i)
    ensures z < 32 ==> BitAt(a, 32 * w + z) != BitAt(b, 32 * w + z)
  {
    var x := XorWord(a[w], b[w]);
    forall i: nat | 32 * w <= i < 32 * w + 32
      ensures Bit(x, 31 - (i - 32 * w)) == (BitAt(a, i) != BitAt(b, i))
    {
      assert i / 32 == w && i % 32 == i - 32 * w;
      XorBit(a[w], b[w], 31 - i % 32);
    }
    forall i: nat | 32 * w <= i < 32 * w + z ensures BitAt(a, i) == BitAt(b, i) {
      assert !Bit(x, 31 - (i - 32 * w));
    }
  }

  lemma CommonBits(a: Address, aLen: nat, b: Address, bLen: nat, common: nat)
    requires common <= Min(Min(aLen, bLen), MAX_PREFIX_LEN)
    requires forall i: nat | i < common :: BitAt(a, i) == BitAt(b, i)
    requires common < Min(Min(aLen, bLen), MAX_PREFIX_LEN) ==> BitAt(a, common) != BitAt(b, common)
    ensures common == CommonLen(Take(a, aLen), Take(b, bLen))
  {
    var k, l := Take(a, aLen), Take(b, bLen);
    forall i | 0 <= i < common ensures k[i] == l[i] {
      assert BitAt(a, i) == BitAt(b, i);
    }
    CommonLenUnique(k, l, common);
  }

  method CommonPrefixLen(a: Address, aLen: nat, b: Address, bLen: nat) returns (common: nat)
    ensures common == CommonLen(Take(a, aLen), Take(b, bLen))
  {
    var maxCheck := Min(aLen, bLen);
    if maxCheck == 0 {
      return 0;
    }
    common := 0;
    var word := 0;
    while word < 4
      invariant 0 <= word <= 4
      invariant common == Min(32 * word, maxCheck)
      invariant forall i: nat | i < common :: BitAt(a, i) == BitAt(b, i)
    {
      if common >= maxCheck {
        break;
      }
      var xor := XorWord(a[word], b[word]);
      var remaining := maxCheck - common;
      WordBits(a, b, word, LeadingZeros(xor));
      LeadingZerosFull(xor);
      if xor == 0 {
        common := common + Min(32, remaining);
      } else {
        common := common + Min(LeadingZeros(xor), remaining);
        CommonBits(a, aLen, b, bLen, common);
        return;
      }
      word := word + 1;
    }
    CommonBits(a, aLen, b, bLen, common);
  }

  // ----- masking -----

  lemma MaskedWordBits(before: Word, after: Word, word: nat, len: nat)
    requires word < 4
    requires if len <= 32 * word then after == 0
             else if len < 32 * word + 32 then
               after == AndWord(before, ShiftLeft(ALL_ONES, 32 - (len - 32 * word)))
             else after == before
    ensures forall i: nat | 32 * word <= i < 32 * word + 32 ::
              Bit(after, 31 - i % 32) == (i < len && Bit(before, 31 - i % 32))
  {
    forall i: nat | 32 * word <= i < 32 * word + 32
      ensures Bit(after, 31 - i % 32) == (i < len && Bit(before, 31 - i % 32))
    {
      assert i % 32 == i - 32 * word;
      if len <= 32 * word {
        ZeroBit(31 - i % 32);
      } else if len < 32 * word + 32 {
        var shift := 32 - (len - 32 * word);
        AndBit(before, ShiftLeft(ALL_ONES, shift), 31 - i % 32);
        HighMaskBit(shift, 31 - i % 32);
      }
    }
  }

  /** Clears exactly the positions from `len` up. */
  method Masked(a: Address, len: nat) returns (m: Address)
    ensures forall i: nat | i < MAX_PREFIX_LEN :: BitAt(m, i) == (i < len && BitAt(a, i))
  {
    var words: seq<Word> := a;
    var word := 0;
    while word < 4
      invariant 0 <= word <= 4 && |words| == 4
      invariant forall w | word <= w < 4 :: words[w] == a[w]
      invariant forall i: nat | i < 32 * word :: Bit(words[i / 32], 31 - i % 32) == (i < len && BitAt(a, i))
    {
      var start := 32 * word;
      if len <= start {
        words := words[word := 0];
      } else if len < start + 32 {
        var bitsToKeep := len - start;
        var shift := 32 - bitsToKeep;
        words := words[word := AndWord(words[word], ShiftLeft(ALL_ONES, shift))];
      }
      MaskedWordBits(a[word], words[word], word, len);
      forall i: nat | i < start + 32
        ensures Bit(words[i / 32], 31 - i % 32) == (i < len && BitAt(a, i))
      {
        if i >= start {
          assert i / 32 == word;
        }
      }
      word := word + 1;
    }
    m := words;
  }

  /** `Prefix::new` and `Prefix::from_address`; a length above 128 panics. */
  method FromAddress(a: Address, len: nat) returns (p: Prefix)
    requires len <= MAX_PREFIX_LEN
    ensures p.len == len && KeyOf(p) == AddressKey(a)[..len]
    ensures len == MAX_PREFIX_LEN ==> p.bits == a
  {
    var m := Masked(a, len);
    p := Prefix(m, len);
    assert KeyOf(p) == AddressKey(a)[..len];
    if len == MAX_PREFIX_LEN {
      assert AddressKey(m) == AddressKey(a);
      AddressKeyInjective(m, a);
    }
  }

  /** `Prefix::common_prefix_len`. */
  method CommonLenOf(p: Prefix, q: Prefix) returns (common: nat)
    ensures common == CommonLen(KeyOf(p), KeyOf(q))
  {
    common := CommonPrefixLen(p.bits, p.len, q.bits, q.len);
  }

  method Covers(p: Prefix, a: Address) returns (yes: bool)
    ensures yes <==> KeyOf(p) <= AddressKey(a)
  {
    var common := CommonPrefixLen(p.bits, p.len, a, MAX_PREFIX_LEN);
    assert Take(a, MAX_PREFIX_LEN) == AddressKey(a);
    CommonLenCovers(KeyOf(p), AddressKey(a));
    yes := common == p.len;
  }
}
