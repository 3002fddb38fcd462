// The key file of attestation.c: eight parts, plain (PCK3) or sealed under a key-encryption key
// (PCK4).
module KeyFile {
  import opened Bytes
  import opened ChunkedFile

  const BODY_SIZE: nat := 5280
  const NONCE_SIZE: nat := 24
  const KEY_SIZE: nat := 32
  const MAGIC_PLAIN: bytes := [80, 67, 75, 51]
  const MAGIC_SEALED: bytes := [80, 67, 75, 52]
  const PLAIN_SIZE: nat := 4 + BODY_SIZE
  const SEALED_SIZE: nat := 4 + NONCE_SIZE + BODY_SIZE + TAG_SIZE

  datatype Parts = Parts(
    boxPublic: bytes, boxSecret: bytes, kyberPublic: bytes, kyberSeed: bytes,
    signPublic: bytes, signSecret: bytes, mldsaPublic: bytes, mldsaSecret: bytes)

  predicate ValidParts(p: Parts) {
    && |p.boxPublic| == 32 && |p.boxSecret| == 32 && |p.kyberPublic| == 1184 && |p.kyberSeed| == 64
    && |p.signPublic| == 32 && |p.signSecret| == 64 && |p.mldsaPublic| == 1312 && |p.mldsaSecret| == 2560
  }

  function Serialise(p: Parts): (body: bytes)
    ensures ValidParts(p) ==> |body| == BODY_SIZE
  {
    ((p.boxPublic + p.boxSecret) + (p.kyberPublic + p.kyberSeed))
    + ((p.signPublic + p.signSecret) + (p.mldsaPublic + p.mldsaSecret))
  }

  function Parse(body: bytes): (p: Parts)
    requires |body| == BODY_SIZE
    ensures ValidParts(p)
  {
    Parts(body[..32], body[32..64], body[64..1248], body[1248..1312],
          body[1312..1344], body[1344..1408], body[1408..2720], body[2720..])
  }

  lemma ParseUndoesSerialise(p: Parts)
    requires ValidParts(p)
    ensures Parse(Serialise(p)) == p
  {
    hide Holds;
    var b := Serialise(p);
    var (w, x) := (p.boxPublic + p.boxSecret, p.kyberPublic + p.kyberSeed);
    var (y, z) := (p.signPublic + p.signSecret, p.mldsaPublic + p.mldsaSecret);
    assert Holds(b, 0, (w + x) + (y + z)) by { Whole(b); }
    HoldsSplit(b, 0, w + x, y + z);
    HoldsSplit(b, 0, w, x);
    HoldsSplit(b, 1312, y, z);
    Two(b, 0, p.boxPublic, p.boxSecret);
    Two(b, 64, p.kyberPublic, p.kyberSeed);
    Two(b, 1312, p.signPublic, p.signSecret);
    Two(b, 1408, p.mldsaPublic, p.mldsaSecret);
    assert b[2720..] == b[2720..5280];
  }

  lemma Whole(b: bytes)
    ensures Holds(b, 0, b)
  {
  }

  lemma Two(data: bytes, p: nat, a: bytes, b: bytes)
    requires Holds(data, p, a + b)
    ensures p + |a| + |b| <= |data|
    ensures data[p..p + |a|] == a && data[p + |a|..p + |a| + |b|] == b
  {
    HoldsSplit(data, p, a, b);
  }

  lemma SerialiseUndoesParse(body: bytes)
    requires |body| == BODY_SIZE
    ensures Serialise(Parse(body)) == body
  {
    assert body[..32] + body[32..64] == body[..64];
    assert body[64..1248] + body[1248..1312] == body[64..1312];
    assert body[1312..1344] + body[1344..1408] == body[1312..1408];
    assert body[1408..2720] + body[2720..] == body[1408..];
    assert body[..64] + body[64..1312] == body[..1312];
    assert body[1312..1408] + body[1408..] == body[1312..];
  }

  // ---------------------------------------------------------------------------
  // The two formats

  function PlainFile(p: Parts): bytes {
    MAGIC_PLAIN + Serialise(p)
  }

  function SealedFile(a: Aead, kek: bytes, nonce: bytes, p: Parts): bytes {
    MAGIC_SEALED + nonce + a.seal(kek, nonce, [], Serialise(p))
  }

  /** What is written. */
  function Image(a: Aead, kek: Option<bytes>, nonce: bytes, p: Parts): bytes {
    match kek
    case Some(k) => SealedFile(a, k, nonce, p)
    case None => PlainFile(p)
  }

  /** As much of a file as the read buffer takes. */
  function Seen(file: bytes): bytes {
    if |file| <= SEALED_SIZE then file else file[..SEALED_SIZE]
  }

  datatype Format = Absent | Plain | Sealed | Foreign

  function FormatOf(file: bytes): Format {
    var f := Seen(file);
    if |f| == PLAIN_SIZE && f[..4] == MAGIC_PLAIN then Plain
    else if |f| == SEALED_SIZE && f[..4] == MAGIC_SEALED then Sealed
    else Foreign
  }

  /** What loading the file gives under the key-encryption key of this boot. */
  function Loaded(a: Aead, file: bytes, kek: Option<bytes>): (p: Option<Parts>)
    ensures p.Some? ==> ValidParts(p.value)
  {
    var f := Seen(file);
    match FormatOf(file)
    case Plain => Some(Parse(f[4..]))
    case Sealed =>
      if kek.None? then None
      else (
        match a.open(kek.value, f[4..28], [], f[28..])
        case Some(body) => if |body| == BODY_SIZE then Some(Parse(body)) else None
        case None => None)
    case _ => None
  }

  /** The file holds the parts p: in the plain, or sealed under some key. */
  ghost predicate HoldsParts(a: Aead, file: bytes, p: Parts) {
    file == PlainFile(p) || exists k, n :: IsSealed(a, file, k, n, p)
  }

  ghost predicate IsSealed(a: Aead, file: bytes, k: bytes, n: bytes, p: Parts) {
    |n| == NONCE_SIZE && file == SealedFile(a, k, n, p)
  }

  /** The file's own box, sealed under another key, opens under this one: a failure of the cipher on
      the one box at hand. */
  ghost predicate Misopened(a: Aead, file: bytes, kek: Option<bytes>, p: Parts) {
    kek.Some? && exists k, n :: k != kek.value && IsSealed(a, file, k, n, p) && OpensOther(a, k, kek.value, n, Serialise(p))
  }

  ghost predicate OpensOther(a: Aead, k: bytes, l: bytes, n: bytes, text: bytes) {
    a.open(l, n, [], a.seal(k, n, [], text)).Some?
  }

  /** A key's first bytes, filled up to the length of a tag. */
  function Mark(k: bytes): (t: bytes)
    ensures |t| == TAG_SIZE
  {
    if |k| >= TAG_SIZE then k[..TAG_SIZE] else k + Repeat(TAG_SIZE - |k|, 0)
  }

  /** That failure is not forced: a cipher that only appends the key's first 16 bytes has the laws, and
      under it no two keys that differ there open each other's boxes. */
  lemma DistinguishingCipherExists()
    ensures exists a :: Lawful(a) && forall k, l, n, text :: Mark(k) != Mark(l) ==> !OpensOther(a, k, l, n, text)
  {
    var a := Aead(
      (k, n, ad, text) => text + Mark(k),
      (k, n, ad, sealed) =>
        if |sealed| >= TAG_SIZE && sealed[|sealed| - TAG_SIZE..] == Mark(k)
        then Some(sealed[..|sealed| - TAG_SIZE]) else None);
    forall k, n, ad, x ensures LawsAt(a, k, n, ad, x) {
      assert (x + Mark(k))[|x|..] == Mark(k) && (x + Mark(k))[..|x|] == x;
      assert |x| >= TAG_SIZE ==> x == x[..|x| - TAG_SIZE] + x[|x| - TAG_SIZE..];
    }
    forall k, l, n, text | Mark(k) != Mark(l) ensures !OpensOther(a, k, l, n, text) {
      assert (text + Mark(k))[|text|..] == Mark(k);
    }
    assert Lawful(a);
  }

  lemma PlainFileShape(p: Parts)
    requires ValidParts(p)
    ensures FormatOf(PlainFile(p)) == Plain && PlainFile(p)[4..] == Serialise(p)
  {
    hide Serialise;
    assert PlainFile(p)[..4] == MAGIC_PLAIN;
  }

  lemma SealedFileShape(a: Aead, k: bytes, n: bytes, p: Parts)
    requires Lawful(a) && ValidParts(p) && |n| == NONCE_SIZE
    ensures var f := SealedFile(a, k, n, p);
            && FormatOf(f) == Sealed && |f| == SEALED_SIZE && f[4..28] == n
            && f[28..] == a.seal(k, n, [], Serialise(p))
  {
    hide Serialise;
    assert LawsAt(a, k, n, [], Serialise(p));
    var (f, box) := (SealedFile(a, k, n, p), a.seal(k, n, [], Serialise(p)));
    assert f[..4] == MAGIC_SEALED && f[4..28] == n && f[28..] == box;
  }

  /** What is written is sealed exactly if there is a key, and is read back under the same. */
  lemma LoadUndoesSave(a: Aead, kek: Option<bytes>, n: bytes, p: Parts)
    requires Lawful(a) && ValidParts(p) && |n| == NONCE_SIZE
    ensures Loaded(a, Image(a, kek, n, p), kek) == Some(p)
    ensures FormatOf(Image(a, kek, n, p)) == if kek.Some? then Sealed else Plain
  {
    hide Serialise, Parse, FormatOf;
    ParseUndoesSerialise(p);
    if kek.Some? {
      SealedFileShape(a, kek.value, n, p);
      assert LawsAt(a, kek.value, n, [], Serialise(p));
    } else {
      PlainFileShape(p);
    }
  }

  /** What stands behind the keys of a sealed file is not read; but behind a plain one it must not stand. */
  lemma OnlyTheFrontIsRead(a: Aead, k: bytes, n: bytes, p: Parts, junk: bytes)
    requires Lawful(a) && ValidParts(p) && |n| == NONCE_SIZE && junk != []
    ensures Loaded(a, SealedFile(a, k, n, p) + junk, Some(k)) == Some(p)
    ensures Loaded(a, PlainFile(p) + junk, Some(k)).None?
  {
    hide Serialise, Parse, PlainFile, SealedFile;
    var (sealed, plain) := (SealedFile(a, k, n, p), PlainFile(p) + junk);
    SealedFileShape(a, k, n, p);
    LoadUndoesSave(a, Some(k), n, p);
    assert Seen(sealed + junk) == sealed;
    PlainFileShape(p);
    assert |Seen(plain)| > 4 && Seen(plain)[..4] == PlainFile(p)[..4];
  }

  /** A file that holds p loads as p, whatever the key, unless the key wrongly opens this very box. */
  lemma LoadsWhatItHolds(a: Aead, file: bytes, kek: Option<bytes>, p: Parts)
    requires Lawful(a) && ValidParts(p) && HoldsParts(a, file, p)
    ensures Loaded(a, file, kek).Some? ==>
              Loaded(a, file, kek) == Some(p) || Misopened(a, file, kek, p)
    ensures FormatOf(file).Sealed? && Loaded(a, file, kek).Some? ==> kek.Some?
    ensures FormatOf(file).Plain? <==> file == PlainFile(p)
    ensures FormatOf(file).Plain? || FormatOf(file).Sealed?
  {
    hide Serialise, Parse;
    ParseUndoesSerialise(p);
    PlainFileShape(p);
    if file != PlainFile(p) {
      var k, n :| IsSealed(a, file, k, n, p);
      SealedFileShape(a, k, n, p);
      assert LawsAt(a, k, n, [], Serialise(p));
      if kek.Some? && kek.value != k && Loaded(a, file, kek).Some? {
        assert OpensOther(a, k, kek.value, n, Serialise(p));
        assert Misopened(a, file, kek, p);
      }
    }
  }

  /** A plain file that loads is the plain file of what it loads as. */
  lemma PlainLoadIsExact(a: Aead, file: bytes, kek: Option<bytes>)
    requires FormatOf(file).Plain?
    ensures Loaded(a, file, kek).Some? && file == PlainFile(Loaded(a, file, kek).value)
  {
    hide Serialise, Parse;
    assert Seen(file) == file;
    SerialiseUndoesParse(file[4..]);
    assert file == file[..4] + file[4..];
  }
}
