/** The stream cipher and the hexadecimal text of src/plugin/core/config/myrc4.cc. */
module Rc4 {
  import opened Arithmetic
  import opened Bytes

  const BOX_LEN := 256

  // ------------------------------------------------------------------------------------------
  // The box
  // ------------------------------------------------------------------------------------------

  /** Every byte occurs in the box, and once. */
  predicate Permutation(box: seq<Byte>) {
    && |box| == BOX_LEN
    && (forall i, j :: 0 <= i < j < BOX_LEN ==> box[i] != box[j])
    && (forall v: Byte :: v in box)
  }

  function Swap(box: seq<Byte>, i: nat, j: nat): (r: seq<Byte>)
    requires i < |box| && j < |box|
  {
    box[i := box[j]][j := box[i]]
  }

  lemma SwapPermutes(box: seq<Byte>, i: nat, j: nat)
    requires Permutation(box) && i < BOX_LEN && j < BOX_LEN
    ensures Permutation(Swap(box, i, j))
  {
    var r := Swap(box, i, j);
    forall v: Byte
      ensures v in r
    {
      assert v in box;
      var k :| 0 <= k < |box| && box[k] == v;
      assert r[if k == i then j else if k == j then i else k] == v;
    }
  }

  function Identity(): (box: seq<Byte>)
    ensures Permutation(box)
  {
    var box := seq(BOX_LEN, i requires 0 <= i < BOX_LEN => i as Byte);
    assert forall v: Byte :: v in box by {
      forall v: Byte
        ensures v in box
      {
        assert box[v] == v;
      }
    }
    box
  }

  // ------------------------------------------------------------------------------------------
  // Key setup
  // ------------------------------------------------------------------------------------------

  /** Byte `i` of the key repeated without end. */
  function KeyByte(pass: seq<Byte>, i: nat): Byte
    requires |pass| > 0
  {
    pass[i % |pass|]
  }

  /** The box and `j` after the second loop of GetKey has used one byte of the key. */
  function Mixed(box: seq<Byte>, j: Byte, key: Byte, i: nat): (r: (seq<Byte>, Byte))
    requires |box| == BOX_LEN && i < BOX_LEN
    ensures |r.0| == BOX_LEN
  {
    var next := (key + box[i] + j) % BOX_LEN;
    (Swap(box, i, next), next)
  }

  /** The box and `j` of GetKey before its `i`-th swap. */
  function Setup(pass: seq<Byte>, i: nat): (r: (seq<Byte>, Byte))
    requires |pass| > 0 && i <= BOX_LEN
    ensures |r.0| == BOX_LEN
  {
    if i == 0 then (Identity(), 0)
    else
      var before := Setup(pass, i - 1);
      Mixed(before.0, before.1, KeyByte(pass, i - 1), i - 1)
  }

  lemma {:induction false} SetupPermutes(pass: seq<Byte>, i: nat)
    requires |pass| > 0 && i <= BOX_LEN
    ensures Permutation(Setup(pass, i).0)
  {
    if i > 0 {
      SetupPermutes(pass, i - 1);
      SwapPermutes(Setup(pass, i - 1).0, i - 1, Setup(pass, i).1);
    }
  }

  /** Only the first 256 bytes of the repeated key matter: a key and its repetitions, say, are one key. */
  lemma {:induction false} SameCycleSameSetup(pass: seq<Byte>, other: seq<Byte>, n: nat)
    requires |pass| > 0 && |other| > 0 && n <= BOX_LEN
    requires forall i :: 0 <= i < n ==> KeyByte(pass, i) == KeyByte(other, i)
    ensures Setup(pass, n) == Setup(other, n)
    decreases n
  {
    if n > 0 {
      SameCycleSameSetup(pass, other, n - 1);
    }
  }

  lemma RepeatedKeyIsSameKey(pass: seq<Byte>, n: nat)
    requires |pass| > 0 && n <= BOX_LEN
    ensures Setup(pass + pass, n) == Setup(pass, n)
  {
    forall i: nat | i < n
      ensures KeyByte(pass + pass, i) == KeyByte(pass, i)
    {
      HalfOfCycle(i, |pass|);
    }
    SameCycleSameSetup(pass + pass, pass, n);
  }

  lemma SumsTell(a: Byte, b: Byte, c: int)
    requires a != b
    ensures (a + c) % BOX_LEN != (b + c) % BOX_LEN
  {
  }

  lemma MixedTells(box: seq<Byte>, j: Byte, a: Byte, b: Byte, i: nat)
    requires Permutation(box) && i < BOX_LEN && a != b
    ensures Mixed(box, j, a, i).0 != Mixed(box, j, b, i).0
  {
    var s, t := Mixed(box, j, a, i), Mixed(box, j, b, i);
    assert s.1 != t.1 by {
      SumsTell(a, b, box[i] + j);
    }
    assert s.0[i] == box[s.1] && t.0[i] == box[t.1];
  }

  /** The first byte in which two keys differ tells the boxes apart that they have made so far. */
  lemma FirstDifferenceTells(pass: seq<Byte>, other: seq<Byte>, n: nat)
    requires |pass| > 0 && |other| > 0 && n < BOX_LEN
    requires forall i :: 0 <= i < n ==> KeyByte(pass, i) == KeyByte(other, i)
    requires KeyByte(pass, n) != KeyByte(other, n)
    ensures Setup(pass, n + 1).0 != Setup(other, n + 1).0
  {
    SameCycleSameSetup(pass, other, n);
    SetupPermutes(pass, n);
    MixedTells(Setup(pass, n).0, Setup(pass, n).1, KeyByte(pass, n), KeyByte(other, n), n);
  }

  /** The successive boxes of key setup are the same exactly for keys with the same cycle. */
  lemma {:induction false} SameBoxesIff(pass: seq<Byte>, other: seq<Byte>, n: nat)
    requires |pass| > 0 && |other| > 0 && n <= BOX_LEN
    ensures (forall i: nat :: i <= n ==> Setup(pass, i).0 == Setup(other, i).0) <==>
            (forall i: nat :: i < n ==> pass[i % |pass|] == other[i % |other|])
    decreases n
  {
    if n > 0 {
      SameBoxesIff(pass, other, n - 1);
      if forall i: nat :: i < n - 1 ==> pass[i % |pass|] == other[i % |other|] {
        assert forall i: nat :: i < n - 1 ==> KeyByte(pass, i) == KeyByte(other, i);
        if pass[(n - 1) % |pass|] == other[(n - 1) % |other|] {
          assert KeyByte(pass, n - 1) == KeyByte(other, n - 1);
          SameCycleSameSetup(pass, other, n);
        } else {
          FirstDifferenceTells(pass, other, n - 1);
        }
      }
    }
  }

  /** Of keys of one length, up to 256 bytes, no two pass through the same boxes. */
  lemma KeyIsTold(pass: seq<Byte>, other: seq<Byte>)
    requires 0 < |pass| == |other| <= BOX_LEN
    ensures (forall i: nat :: i <= |pass| ==> Setup(pass, i).0 == Setup(other, i).0) <==> pass == other
  {
    SameBoxesIff(pass, other, |pass|);
    if forall i: nat :: i < |pass| ==> pass[i % |pass|] == other[i % |other|] {
      forall i: nat | i < |pass|
        ensures pass[i] == other[i]
      {
        RemainderIs(i, |pass|, 0, i);
        assert pass[i % |pass|] == other[i % |other|];
      }
    }
  }

  /** Byte `i` of the key that makes every swap of key setup one of an entry with itself. */
  function NeutralByte(i: nat): Byte {
    if i == 0 then 0 else (1 - i) % BOX_LEN
  }

  function NeutralKey(): seq<Byte> {
    seq(BOX_LEN, i requires 0 <= i < BOX_LEN => NeutralByte(i))
  }

  lemma NeutralMix(box: seq<Byte>, i: nat)
    requires i < BOX_LEN == |box| && forall v: Byte :: box[v] == v
    ensures Mixed(box, if i == 0 then 0 else i - 1, NeutralByte(i), i) == (box, i)
  {
    assert NeutralByte(i) == if i < 2 then 0 else BOX_LEN + 1 - i;
    assert (NeutralByte(i) + i + if i == 0 then 0 else i - 1) % BOX_LEN == i;
    assert Swap(box, i, i) == box;
  }

  lemma NeutralKeyByte(i: nat)
    requires i < BOX_LEN
    ensures KeyByte(NeutralKey(), i) == NeutralByte(i)
  {
  }

  /** Setup with it leaves every byte in its own place. */
  lemma {:induction false} NeutralSetup(n: nat)
    requires n <= BOX_LEN
    ensures var r := Setup(NeutralKey(), n);
      r.1 == (if n == 0 then 0 else n - 1) && forall v: Byte :: r.0[v] == v
  {
    if n > 0 {
      NeutralSetup(n - 1);
      NeutralMix(Setup(NeutralKey(), n - 1).0, n - 1);
      NeutralKeyByte(n - 1);
    }
  }

  lemma HalfOfCycle(i: nat, n: nat)
    requires n > 0
    ensures i % n == if i % (n + n) < n then i % (n + n) else i % (n + n) - n
  {
    var q, k := i / (n + n), i % (n + n);
    assert i == (n + n) * q + k;
    if k < n {
      RemainderIs(i, n, 2 * q, k);
    } else {
      RemainderIs(i, n, 2 * q + 1, k - n);
    }
  }

  lemma RemainderIs(i: nat, n: nat, q: nat, r: nat)
    requires n > 0 && r < n && i == n * q + r
    ensures i % n == r
  {
    var d := i / n - q;
    assert d * n == r - i % n;
    MultipleIsFar(n, d);
  }

  // ------------------------------------------------------------------------------------------
  // The key stream
  // ------------------------------------------------------------------------------------------

  /** The locals of the loop of RC4. */
  datatype Generator = Generator(box: seq<Byte>, x: Byte, y: Byte)

  function Step(g: Generator): (r: Generator)
    requires |g.box| == BOX_LEN
    ensures |r.box| == BOX_LEN
  {
    var x := (g.x + 1) % BOX_LEN;
    var y := (g.box[x] + g.y) % BOX_LEN;
    Generator(Swap(g.box, x, y), x, y)
  }

  function Emitted(g: Generator): Byte
    requires |g.box| == BOX_LEN
  {
    g.box[(g.box[g.x] + g.box[g.y]) % BOX_LEN]
  }

  /** The generator `n` bytes after `g`. */
  function After(g: Generator, n: nat): (r: Generator)
    requires |g.box| == BOX_LEN
    ensures |r.box| == BOX_LEN
  {
    if n == 0 then g else Step(After(g, n - 1))
  }

  /** The generator that key setup leaves. */
  function Start(key: seq<Byte>): (g: Generator)
    requires |key| > 0
    ensures |g.box| == BOX_LEN
  {
    Generator(Setup(key, BOX_LEN).0, 0, 0)
  }

  lemma {:induction false} StepsPermute(g: Generator, n: nat)
    requires Permutation(g.box)
    ensures Permutation(After(g, n).box)
  {
    if n > 0 {
      StepsPermute(g, n - 1);
      SwapPermutes(After(g, n - 1).box, After(g, n).x, After(g, n).y);
    }
  }

  /** The box is a permutation of all bytes after key setup and after every byte of the stream. */
  lemma BoxStaysPermutation(key: seq<Byte>, n: nat)
    requires |key| > 0
    ensures Permutation(After(Start(key), n).box)
  {
    SetupPermutes(key, BOX_LEN);
    StepsPermute(Start(key), n);
  }

  /** What the loop of RC4 does to the box can be undone. */
  lemma StepTells(g: Generator, h: Generator)
    requires |g.box| == BOX_LEN && |h.box| == BOX_LEN && Step(g) == Step(h)
    ensures g == h
  {
    var r := Step(g);
    assert g.box == Swap(r.box, r.x, r.y) && h.box == Swap(r.box, r.x, r.y);
    assert g.x == h.x by {
      assert (g.x + 1) % BOX_LEN == (h.x + 1) % BOX_LEN;
    }
  }

  /** Generators that start differently never meet: no byte of the stream loses anything of the box. */
  lemma {:induction false} NeverMeetIff(g: Generator, h: Generator, n: nat)
    requires |g.box| == BOX_LEN && |h.box| == BOX_LEN
    ensures After(g, n) == After(h, n) <==> g == h
  {
    if n > 0 {
      NeverMeetIff(g, h, n - 1);
      if After(g, n) == After(h, n) {
        StepTells(After(g, n - 1), After(h, n - 1));
      }
    }
  }

  /**
   The byte a step emits, in terms of the box before its swap: the entry at the sum of the two that
   change places, unless that is one of their places, which then holds the other one.
   */
  lemma StepEmits(g: Generator)
    requires |g.box| == BOX_LEN
    ensures var x := (g.x + 1) % BOX_LEN; var y := (g.y + g.box[x]) % BOX_LEN;
      && Step(g).y == y
      && var t := (g.box[x] + g.box[y]) % BOX_LEN;
        Emitted(Step(g)) == if t == x then g.box[y] else if t == y then g.box[x] else g.box[t]
  {
    var x := (g.x + 1) % BOX_LEN;
    var y := (g.y + g.box[x]) % BOX_LEN;
    var r := Step(g);
    assert r.x == x && r.y == y && r.box[x] == g.box[y] && r.box[y] == g.box[x];
    assert Emitted(r) == r.box[(g.box[x] + g.box[y]) % BOX_LEN];
  }

  lemma StepCounts(g: Generator)
    requires |g.box| == BOX_LEN
    ensures Step(g).x == (g.x + 1) % BOX_LEN
  {
  }

  lemma NextRemainder(n: nat)
    ensures (n % BOX_LEN + 1) % BOX_LEN == (n + 1) % BOX_LEN
  {
  }

  /** `x` counts the bytes of the stream. */
  lemma {:induction false} CountsBytes(key: seq<Byte>, n: nat)
    requires |key| > 0
    ensures After(Start(key), n).x == n % BOX_LEN
  {
    if n > 0 {
      CountsBytes(key, n - 1);
      StepCounts(After(Start(key), n - 1));
      NextRemainder(n - 1);
    }
  }

  /** A state known never to be left: `y` is one ahead of `x`, and the entry there is 1. */
  predicate Trapped(g: Generator)
    requires |g.box| == BOX_LEN
  {
    g.y == (g.x + 1) % BOX_LEN && g.box[g.y] == 1
  }

  lemma TrappedStepIff(g: Generator)
    requires |g.box| == BOX_LEN
    ensures Trapped(Step(g)) <==> Trapped(g)
  {
    var r := Step(g);
    assert r.box[r.y] == g.box[r.x];
    if g.box[r.x] == 1 {
      assert r.y == (1 + g.y) % BOX_LEN;
      RemainderTellsIff(g.y, r.x);
    }
  }

  lemma RemainderTellsIff(a: Byte, b: Byte)
    ensures (1 + a) % BOX_LEN == (b + 1) % BOX_LEN <==> a == b
  {
  }

  /** No key ever gets the stream there. */
  lemma {:induction false} NeverTrapped(key: seq<Byte>, n: nat)
    requires |key| > 0
    ensures var g := After(Start(key), n); !(g.y == (g.x + 1) % BOX_LEN && g.box[g.y] == 1)
  {
    if n > 0 {
      NeverTrapped(key, n - 1);
      TrappedStepIff(After(Start(key), n - 1));
    }
  }

  /** What the loop of RC4 turns byte `k` into. */
  function Crypted(g: Generator, k: nat, b: Byte): Byte
    requires |g.box| == BOX_LEN
  {
    Xor(b, Emitted(After(g, k + 1)))
  }

  /** What RC4 turns `data` into. */
  function Crypt(key: seq<Byte>, data: seq<Byte>): (r: seq<Byte>)
    requires |key| > 0
    ensures |r| == |data|
  {
    seq(|data|, k requires 0 <= k < |data| => Crypted(Start(key), k, data[k]))
  }

  /** Decrypting undoes encrypting, and the other way round. */
  lemma CryptTwice(key: seq<Byte>, data: seq<Byte>)
    requires |key| > 0
    ensures Crypt(key, Crypt(key, data)) == data
  {
    forall k | 0 <= k < |data|
      ensures Crypt(key, Crypt(key, data))[k] == data[k]
    {
      XorTwice(data[k], Emitted(After(Start(key), k + 1)));
    }
  }

  /** The first two bytes a box gives that holds every byte in its own place. */
  lemma NeutralBytes(g: Generator)
    requires |g.box| == BOX_LEN && g.x == 0 && g.y == 0 && forall v: Byte :: g.box[v] == v
    ensures Emitted(Step(g)) == 2 && Emitted(Step(Step(g))) == 5
  {
    StepEmits(g);
    assert Swap(g.box, 1, 1) == g.box;
    assert Step(g) == Generator(g.box, 1, 1);
    StepEmits(Step(g));
  }

  /** With the neutral key the stream begins with 2, 5. */
  lemma NeutralStream(a: Byte, b: Byte)
    ensures Crypt(NeutralKey(), [a, b]) == [Xor(a, 2), Xor(b, 5)]
  {
    var g := Start(NeutralKey());
    NeutralSetup(BOX_LEN);
    NeutralBytes(g);
    assert After(g, 1) == Step(After(g, 0)) && After(g, 2) == Step(After(g, 1));
    assert Crypted(g, 0, a) == Xor(a, 2) && Crypted(g, 1, b) == Xor(b, 5);
  }

  // ------------------------------------------------------------------------------------------
  // The procedures
  // ------------------------------------------------------------------------------------------

  /** swap_byte. */
  method SwapByte(box: array<Byte>, i: nat, j: nat)
    requires i < box.Length && j < box.Length
    modifies box
    ensures box[..] == Swap(old(box[..]), i, j)
  {
    box[i], box[j] := box[j], box[i];
  }

  /** One turn of the second loop of GetKey. */
  method MixByte(pass: seq<Byte>, out: array<Byte>, i: nat, j0: Byte) returns (j: Byte)
    requires |pass| > 0 && out.Length == BOX_LEN && i < BOX_LEN
    modifies out
    ensures (out[..], j) == Mixed(old(out[..]), j0, KeyByte(pass, i), i)
  {
    j := (pass[i % |pass|] + out[i] + j0) % BOX_LEN;
    SwapByte(out, i, j);
  }

  /** GetKey: the remainder by the key length needs a key. */
  method GetKey(pass: seq<Byte>, out: array<Byte>)
    requires |pass| > 0 && out.Length == BOX_LEN
    modifies out
    ensures out[..] == Setup(pass, BOX_LEN).0 && Permutation(out[..])
  {
    for i := 0 to BOX_LEN
      invariant out[..i] == Identity()[..i]
    {
      out[i] := i;
    }
    assert out[..] == out[..BOX_LEN] && Identity() == Identity()[..BOX_LEN];
    var j: Byte := 0;
    for i := 0 to BOX_LEN
      invariant (out[..], j) == Setup(pass, i)
    {
      j := MixByte(pass, out, i, j);
    }
    SetupPermutes(pass, BOX_LEN);
  }

  /** The first part of the loop of RC4: the next byte of the key stream. */
  method NextByte(box: array<Byte>, x0: Byte, y0: Byte) returns (x: Byte, y: Byte, b: Byte)
    requires box.Length == BOX_LEN
    modifies box
    ensures Generator(box[..], x, y) == Step(Generator(old(box[..]), x0, y0))
    ensures b == Emitted(Generator(box[..], x, y))
  {
    x := (x0 + 1) % BOX_LEN;
    y := (box[x] + y0) % BOX_LEN;
    SwapByte(box, x, y);
    b := box[(box[x] + box[y]) % BOX_LEN];
  }

  /** `now` is `before` with its first `k` bytes crypted. */
  ghost predicate CryptedUpTo(g: Generator, before: seq<Byte>, now: seq<Byte>, k: nat)
    requires |g.box| == BOX_LEN
  {
    |now| == |before| && forall i :: 0 <= i < |now| ==> now[i] == if i < k then Crypted(g, i, before[i]) else before[i]
  }

  lemma CryptedOneMore(g: Generator, before: seq<Byte>, now: seq<Byte>, k: nat)
    requires |g.box| == BOX_LEN && CryptedUpTo(g, before, now, k) && k < |now|
    ensures CryptedUpTo(g, before, now[k := Xor(now[k], Emitted(Step(After(g, k))))], k + 1)
  {
    assert After(g, k + 1) == Step(After(g, k));
  }

  /** The loop of RC4. */
  method XorStream(data: array<Byte>, box: array<Byte>)
    requires box.Length == BOX_LEN && box != data
    modifies data, box
    ensures CryptedUpTo(Generator(old(box[..]), 0, 0), old(data[..]), data[..], data.Length)
  {
    ghost var g := Generator(box[..], 0, 0);
    var x: Byte, y: Byte := 0, 0;
    for k := 0 to data.Length
      invariant Generator(box[..], x, y) == After(g, k)
      invariant CryptedUpTo(g, old(data[..]), data[..], k)
    {
      CryptedOneMore(g, old(data[..]), data[..], k);
      var b: Byte;
      x, y, b := NextByte(box, x, y);
      data[k] := Xor(data[k], b);
    }
  }

  /** RC4. */
  method RC4(data: array<Byte>, key: seq<Byte>) returns (len: int)
    requires |key| > 0 && data.Length < 0x1_0000_0000
    modifies data
    ensures data[..] == Crypt(key, old(data[..])) && len == AsInt32(data.Length)
  {
    var box := new Byte[BOX_LEN];
    GetKey(key, box);
    XorStream(data, box);
    len := AsInt32(data.Length);
  }

  /** Encrypt then Decrypt with one key: the array is back, whatever it held. */
  method EncryptThenDecrypt(data: array<Byte>, key: seq<Byte>) returns (len: int)
    requires |key| > 0 && data.Length < 0x1_0000_0000
    modifies data
    ensures data[..] == old(data[..]) && len == AsInt32(data.Length)
  {
    len := RC4(data, key);
    len := RC4(data, key);
    CryptTwice(key, old(data[..]));
  }
}
