/** `Cipher`: an AEAD key with a running 96-bit little-endian nonce. */
module Ciphers {
  import opened Bytes
  import opened Library

  /** The 16-bit little-endian word at the front (`u16::from_le_bytes`). */
  function Word(s: seq<byte>): nat
    requires |s| >= 2
  {
    s[0] as int + 0x100 * (s[1] as int)
  }

  /** The low 16 bits of `sum` (`u16::to_le_bytes(sum as u16)`). */
  function PutWord(sum: nat): (s: seq<byte>)
    ensures |s| == 2 && Word(s) == sum % 0x10000
  {
    var low := sum % 0x10000;
    [low % 0x100, low / 0x100]
  }

  /** The nonce after `inc_nonce(v)`: 16-bit little-endian words with carry. */
  function AddNonce(nonce: seq<byte>, v: nat): (r: seq<byte>)
    ensures |r| == |nonce|
    decreases |nonce|
  {
    if v == 0 || |nonce| < 2 then nonce
    else PutWord(Word(nonce) + v) + AddNonce(nonce[2..], (Word(nonce) + v) / 0x10000)
  }

  /** The number a little-endian byte string stands for. */
  function LittleEndian(s: seq<byte>): nat {
    if s == [] then 0 else s[0] + 0x100 * LittleEndian(s[1..])
  }

  /** Each byte is a digit to the base 256, the least significant first. */
  lemma {:induction false} LittleEndianDigits(s: seq<byte>, i: nat)
    requires i < |s|
    ensures LittleEndian(s) / Power(0x100, i) % 0x100 == s[i]
  {
    assert LittleEndian(s) / 0x100 == LittleEndian(s[1..]) && LittleEndian(s) % 0x100 == s[0];
    if i > 0 {
      LittleEndianDigits(s[1..], i - 1);
      assert Power(0x100, i) == 0x100 * Power(0x100, i - 1);
      hide LittleEndian, Power;
      DivideTwice(LittleEndian(s), 0x100, Power(0x100, i - 1));
    }
  }

  lemma {:induction false} LittleEndianBound(s: seq<byte>)
    ensures LittleEndian(s) < Power(0x100, |s|)
  {
    if s != [] { LittleEndianBound(s[1..]); }
  }

  lemma LittleEndianWord(s: seq<byte>)
    requires |s| >= 2
    ensures LittleEndian(s) == Word(s) + 0x10000 * LittleEndian(s[2..])
  {
    assert s[1..][1..] == s[2..];
  }

  /** What `AddNonce` carries out of the last word and drops. */
  function CarryOut(nonce: seq<byte>, v: nat): nat
    requires |nonce| % 2 == 0
    decreases |nonce|
  {
    if nonce == [] then v
    else if v == 0 then 0
    else CarryOut(nonce[2..], (Word(nonce) + v) / 0x10000)
  }

  /** One word of `inc_nonce`: the low word of the sum stays, the rest is carried. */
  lemma AddNonceWord(nonce: seq<byte>, v: nat)
    requires |nonce| >= 2 && v > 0
    ensures LittleEndian(AddNonce(nonce, v))
         == (Word(nonce) + v) % 0x10000 + 0x10000 * LittleEndian(AddNonce(nonce[2..], (Word(nonce) + v) / 0x10000))
  {
    var low, high := PutWord(Word(nonce) + v), AddNonce(nonce[2..], (Word(nonce) + v) / 0x10000);
    assert (low + high)[2..] == high && Word(low + high) == Word(low);
    LittleEndianWord(low + high);
  }

  lemma AppendWord(done: seq<byte>, rest: seq<byte>, v: nat)
    requires |rest| >= 2 && v > 0
    ensures done + AddNonce(rest, v)
         == (done + PutWord(Word(rest) + v)) + AddNonce(rest[2..], (Word(rest) + v) / 0x10000)
  {
  }

  lemma AddNothing(rest: seq<byte>, v: nat)
    requires v == 0 || rest == []
    ensures AddNonce(rest, v) == rest
  {
  }

  lemma CarryStep(low: nat, high: nat, v: nat, newHigh: nat, k: nat, m: nat)
    requires high + (low + v) / 0x10000 == newHigh + k * m
    ensures low + 0x10000 * high + v == (low + v) % 0x10000 + 0x10000 * newHigh + k * (0x10000 * m)
  {
    assert 0x10000 * (k * m) == k * (0x10000 * m);
  }

  lemma {:induction false} AddNonceWithCarry(nonce: seq<byte>, v: nat)
    requires |nonce| % 2 == 0
    ensures LittleEndian(nonce) + v
         == LittleEndian(AddNonce(nonce, v)) + CarryOut(nonce, v) * Power(0x100, |nonce|)
    decreases |nonce|
  {
    if nonce != [] && v > 0 {
      var rest: seq<byte> := nonce[2..];
      var carry := (Word(nonce) + v) / 0x10000;
      AddNonceWithCarry(rest, carry);
      LittleEndianWord(nonce);
      AddNonceWord(nonce, v);
      PowerWord(|rest|);
      CarryStep(Word(nonce), LittleEndian(rest), v,
                LittleEndian(AddNonce(rest, carry)), CarryOut(rest, carry), Power(0x100, |rest|));
    }
  }

  /** `inc_nonce(v)` adds `v` modulo 256^|nonce|. */
  lemma AddNonceAdds(nonce: seq<byte>, v: nat)
    requires |nonce| % 2 == 0
    ensures LittleEndian(AddNonce(nonce, v)) == (LittleEndian(nonce) + v) % Power(0x100, |nonce|)
  {
    AddNonceWithCarry(nonce, v);
    LittleEndianBound(AddNonce(nonce, v));
    DivisionIs(LittleEndian(nonce) + v, CarryOut(nonce, v), LittleEndian(AddNonce(nonce, v)), Power(0x100, |nonce|));
  }

  lemma PowerWord(n: nat)
    ensures Power(0x100, n + 2) == 0x10000 * Power(0x100, n)
  {
    assert Power(0x100, n + 2) == 0x100 * Power(0x100, n + 1);
  }

  class Cipher {
    const aead: AeadKey
    const nonce: array<byte>

    constructor NewWithNonce(aead: AeadKey, start: seq<byte>)
      requires |start| == NONCE_SIZE
      ensures this.aead == aead && fresh(nonce)
      ensures nonce.Length == NONCE_SIZE && nonce[..] == start
    {
      this.aead := aead;
      this.nonce := new byte[NONCE_SIZE](i requires 0 <= i < NONCE_SIZE => start[i]);
    }

    /** Seals `buffer[start..]` in place and appends the tag. */
    method Encrypt(buffer: seq<byte>, start: nat) returns (r: seq<byte>)
      requires start <= |buffer|
      ensures r == buffer[..start] + aead.Seal(nonce[..], buffer[start..])
    {
      r := buffer[..start] + aead.Seal(nonce[..], buffer[start..]);
    }

    /** Opens the buffer in place; the tag's bytes stay at its end, so callers truncate. */
    method Decrypt(buffer: seq<byte>) returns (ok: bool, r: seq<byte>)
      ensures ok <==> aead.Open(nonce[..], buffer).Some?
      ensures |r| == |buffer|
      ensures ok ==> r[..|r| - TAG_SIZE] == aead.Open(nonce[..], buffer).value
    {
      match aead.Open(nonce[..], buffer)
      case None => ok, r := false, buffer;
      case Some(plain) => ok, r := true, plain + buffer[|plain|..];
    }

    /** Adds into the word at `i` and returns what does not fit 16 bits. */
    method AddToWord(i: nat, add: nat, ghost done: seq<byte>, ghost rest: seq<byte>) returns (carry: nat)
      requires nonce[..] == done + rest && |done| == i && |rest| >= 2
      modifies nonce
      ensures carry == (Word(rest) + add) / 0x10000
      ensures nonce[..] == (done + PutWord(Word(rest) + add)) + rest[2..]
    {
      assert nonce[i] == nonce[..][i] && nonce[i + 1] == nonce[..][i + 1];
      var sum := Word([nonce[i], nonce[i + 1]]) + add;
      var word := PutWord(sum);
      nonce[i], nonce[i + 1] := word[0], word[1];
      carry := sum / 0x10000;
    }

    method IncNonce(value: nat)
      requires value <= U16_MAX
      requires nonce.Length == NONCE_SIZE
      modifies nonce
      ensures nonce[..] == AddNonce(old(nonce[..]), value)
    {
      hide AddNonce, PutWord, Word;
      var add, i := value, 0;
      ghost var rest, done: seq<byte>, words := nonce[..], [], 0;
      while add > 0 && i < nonce.Length
        invariant i == |done| == 2 * words <= nonce.Length
        invariant nonce[..] == done + rest
        invariant AddNonce(old(nonce[..]), value) == done + AddNonce(rest, add)
        decreases nonce.Length - i
      {
        AppendWord(done, rest, add);
        var carry := AddToWord(i, add, done, rest);
        done, rest := done + PutWord(Word(rest) + add), rest[2..];
        add, i, words := carry, i + 2, words + 1;
      }
      AddNothing(rest, add);
    }
  }
}
