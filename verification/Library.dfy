/**
  The library code the tunnel relies on: an AEAD in the sense of RFC 5116,
  section 2, key derivation and UTF-8 validation. Only the laws listed in
  `Lawful` are used, so every theorem holds for every library that obeys them.
 */
module Library {
  import opened Bytes

  datatype CipherType = Aes256Gcm | ChaCha20Poly1305

  datatype Kdf = Argon2 | Blake3

  const TAG_SIZE: nat := 16
  const KEY_SIZE: nat := 32
  const NONCE_SIZE: nat := 12

  /** Which of the derived keys is meant. */
  datatype Purpose = TimeBucket(bucket: int) | ClientStream | ServerStream | ProtocolResponse

  datatype Functions = Functions(
    seal: (CipherType, seq<byte>, seq<byte>, seq<byte>) -> seq<byte>,
    open: (CipherType, seq<byte>, seq<byte>, seq<byte>) -> Option<seq<byte>>,
    derive: (Kdf, seq<byte>, Purpose, seq<byte>) -> seq<byte>,
    utf8: seq<byte> -> bool
  )

  ghost predicate Lawful(f: Functions) {
    && (forall t, k, n, p :: |f.seal(t, k, n, p)| == |p| + TAG_SIZE)
    && (forall t, k, n, p :: f.open(t, k, n, f.seal(t, k, n, p)) == Some(p))
    && (forall t, k, n, c :: f.open(t, k, n, c).Some? ==> |f.open(t, k, n, c).value| + TAG_SIZE == |c|)
  }

  /** A library that obeys the laws: the laws are consistent. */
  ghost function Transparent(): (f: Functions)
    ensures Lawful(f)
  {
    var tag: seq<byte> := [0, 0, 0, 0, 0, 0, 0, 0, 0, 0, 0, 0, 0, 0, 0, 0];
    var f := Functions(
      (t, k, n, p) => p + tag,
      (t, k, n, c) => if |c| >= TAG_SIZE then Some(c[..|c| - TAG_SIZE]) else None,
      (d, k, u, s) => [],
      s => true);
    assert forall t, k, n, p :: f.seal(t, k, n, p)[..|p|] == p;
    f
  }

  /** A key as the 16 bytes of a tag. */
  function KeyTag(key: seq<byte>): (tag: seq<byte>)
    ensures |tag| == TAG_SIZE
  {
    if |key| == TAG_SIZE then key else [0, 0, 0, 0, 0, 0, 0, 0, 0, 0, 0, 0, 0, 0, 0, 0]
  }

  function KeyedOpen(key: seq<byte>, sealed: seq<byte>): Option<seq<byte>> {
    if |sealed| >= TAG_SIZE && sealed[|sealed| - TAG_SIZE..] == KeyTag(key) then Some(sealed[..|sealed| - TAG_SIZE])
    else None
  }

  function KeyOf(purpose: Purpose, salt: seq<byte>): seq<byte> {
    match purpose
    case TimeBucket(b) => if b >= -1 then PutUint(b + 1, TAG_SIZE) else []
    case ClientStream => [1] + salt
    case ServerStream => [2] + salt
    case ProtocolResponse => [3] + salt
  }

  lemma KeyedOpens(key: seq<byte>, plain: seq<byte>)
    ensures KeyedOpen(key, plain + KeyTag(key)) == Some(plain)
  {
    var sealed := plain + KeyTag(key);
    assert sealed[..|plain|] == plain && sealed[|plain|..] == KeyTag(key);
  }

  /** Another, whose tags tell the key apart and whose keys tell the time, the purpose and the salt apart. */
  ghost function Keyed(): (f: Functions)
    ensures Lawful(f)
    ensures forall t, k, n, p :: f.seal(t, k, n, p) == p + KeyTag(k)
    ensures forall t, k, n, c :: f.open(t, k, n, c) == KeyedOpen(k, c)
    ensures forall d, k, u, s :: f.derive(d, k, u, s) == KeyOf(u, s)
  {
    var f := Functions((t, k, n, p) => p + KeyTag(k), (t, k, n, c) => KeyedOpen(k, c),
                       (d, k, u, s) => KeyOf(u, s), s => true);
    assert Lawful(f) by {
      forall t, k, n, p ensures f.open(t, k, n, f.seal(t, k, n, p)) == Some(p) { KeyedOpens(k, p); }
    }
    f
  }

  /** In that library no key opens what the key of another time has sealed. */
  lemma KeyedSeparates(kind: CipherType, kdf: Kdf, master: seq<byte>, sent: int, b: int, nonce: seq<byte>,
                       plain: seq<byte>)
    requires -1 <= sent < 0x1_0000_0000_0000_0000 && -1 <= b < 0x1_0000_0000_0000_0000 && b != sent
    ensures var f := Keyed();
      AeadKey(f, kind, f.derive(kdf, master, TimeBucket(b), [])).Open(
        nonce, AeadKey(f, kind, f.derive(kdf, master, TimeBucket(sent), [])).Seal(nonce, plain)).None?
  {
    hide PutUint;
    KeysApart(b + 1, sent + 1);
    var f := Keyed();
    var mine, theirs := f.derive(kdf, master, TimeBucket(b), []), f.derive(kdf, master, TimeBucket(sent), []);
    assert mine == PutUint(b + 1, TAG_SIZE) && theirs == PutUint(sent + 1, TAG_SIZE);
    var sealed := AeadKey(f, kind, theirs).Seal(nonce, plain);
    assert sealed == plain + KeyTag(theirs);
    EndsWith(plain, KeyTag(theirs));
  }

  /** No two of the keys that come from a salt are the same, and none is the key of a time. */
  ghost predicate SeparatesKeys(f: Functions) {
    forall kdf, master, u: Purpose, v: Purpose, s, t ::
      !u.TimeBucket? && |s| == KEY_SIZE && ((v.TimeBucket? && t == []) || |t| == KEY_SIZE) && (u, s) != (v, t)
      ==> f.derive(kdf, master, u, s) != f.derive(kdf, master, v, t)
  }

  lemma KeyedSeparatesKeys()
    ensures SeparatesKeys(Keyed())
  {
    hide KeyOf;
    forall u: Purpose, v: Purpose, s, t | !u.TimeBucket? && |s| == KEY_SIZE
                                          && ((v.TimeBucket? && t == []) || |t| == KEY_SIZE) && (u, s) != (v, t)
      ensures KeyOf(u, s) != KeyOf(v, t)
    {
      KeysDiffer(u, v, s, t);
    }
  }

  lemma KeysDiffer(u: Purpose, v: Purpose, s: seq<byte>, t: seq<byte>)
    requires !u.TimeBucket? && |s| == KEY_SIZE && (v.TimeBucket? || |t| == KEY_SIZE) && (u, s) != (v, t)
    ensures KeyOf(u, s) != KeyOf(v, t)
  {
    hide PutUint;
    var mine, theirs := KeyOf(u, s), KeyOf(v, t);
    if v.TimeBucket? {
      assert |mine| == KEY_SIZE + 1 && |theirs| <= TAG_SIZE;
    } else if u == v {
      assert mine[1..] == s && theirs[1..] == t;
    } else {
      assert mine[0] != theirs[0];
    }
  }

  lemma KeysApart(x: nat, y: nat)
    requires x <= 0x1_0000_0000_0000_0000 && y <= 0x1_0000_0000_0000_0000 && x != y
    ensures PutUint(x, TAG_SIZE) != PutUint(y, TAG_SIZE)
  {
    hide PutUint, GetUint, Power;
    Fits(x);
    Fits(y);
    UintRoundTrip(x, TAG_SIZE);
    UintRoundTrip(y, TAG_SIZE);
  }

  lemma EndsWith(plain: seq<byte>, tag: seq<byte>)
    requires |tag| == TAG_SIZE
    ensures (plain + tag)[|plain + tag| - TAG_SIZE..] == tag
  {
  }

  lemma Fits(x: nat)
    requires x <= 0x1_0000_0000_0000_0000
    ensures x < Power(0x100, TAG_SIZE)
  {
    PowersOf256();
    assert Power(0x100, 9) == 0x100 * Power(0x100, 8);
    assert Power(0x100, 16) > Power(0x100, 9) by { PowerGrows(9, 16); }
  }

  lemma {:induction false} PowerGrows(m: nat, n: nat)
    requires m < n
    ensures Power(0x100, m) < Power(0x100, n)
  {
    if m + 1 < n { PowerGrows(m, n - 1); }
  }

  type Lib = f: Functions | Lawful(f) ghost witness Transparent()

  /** One algorithm under one key: what the source's `Cipher` holds besides its nonce. */
  datatype AeadKey = AeadKey(lib: Lib, kind: CipherType, key: seq<byte>) {
    function Seal(nonce: seq<byte>, plain: seq<byte>): (c: seq<byte>)
      ensures |c| == |plain| + TAG_SIZE
    {
      assert Lawful(lib);
      lib.seal(kind, key, nonce, plain)
    }

    function Open(nonce: seq<byte>, sealed: seq<byte>): (p: Option<seq<byte>>)
      ensures p.Some? ==> |p.value| + TAG_SIZE == |sealed|
    {
      assert Lawful(lib);
      lib.open(kind, key, nonce, sealed)
    }

    lemma OpenSeal(nonce: seq<byte>, plain: seq<byte>)
      ensures Open(nonce, Seal(nonce, plain)) == Some(plain)
    {
      assert Lawful(lib);
    }
  }
}
