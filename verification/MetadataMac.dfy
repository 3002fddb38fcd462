// The keyed check of a file's metadata (crypto.c): six fields printed into one line, MACed
// under the data key, and carried as lower-case hex.
module MetadataMac {
  import opened Bytes

  datatype Fields = Fields(version: int, nonce: string, chunkSize: int, chunks: int, sha: string, size: int)

  const BUFFER_SIZE: int := 1024
  const MAC_SIZE: int := 32

  function Digit(d: nat): char
    requires d < 10
  {
    "0123456789"[d]
  }

  function DecNat(n: nat): string {
    if n < 10 then [Digit(n)] else DecNat(n / 10) + [Digit(n % 10)]
  }

  /** What printf's %d and %lld print. */
  function Dec(n: int): string {
    if n < 0 then "-" + DecNat(-n) else DecNat(n)
  }

  function Number(n: int, rest: string): string { Dec(n) + ("," + rest) }

  function Quoted(s: string, rest: string): string { "\"" + (s + ("\"" + ("," + rest))) }

  /** The line [version,"nonce",chunk size,chunks,"sha",size]. */
  function Canonical(f: Fields): string {
    "[" + Number(f.version, Quoted(f.nonce, Number(f.chunkSize, Number(f.chunks,
          Quoted(f.sha, Dec(f.size) + ("]" + ""))))))
  }

  /** build_metadata_canonical: refused when it does not fit the buffer with its terminator. */
  function BuildCanonical(f: Fields): Option<string> {
    if |Canonical(f)| >= BUFFER_SIZE then None else Some(Canonical(f))
  }

  predicate QuoteFree(f: Fields) {
    '\"' !in f.nonce && '\"' !in f.sha
  }

  // ---------------------------------------------------------------------------
  // The line determines the fields

  lemma {:induction false} DecNatChars(n: nat)
    ensures |DecNat(n)| > 0 && forall c :: c in DecNat(n) ==> '0' <= c <= '9'
  {
    if n >= 10 {
      DecNatChars(n / 10);
    }
  }

  lemma DecChars(n: int)
    ensures ',' !in Dec(n) && ']' !in Dec(n) && |Dec(n)| > 0
  {
    DecNatChars(if n < 0 then -n else n);
  }

  lemma {:induction false} DecNatInjective(m: nat, n: nat)
    requires DecNat(m) == DecNat(n)
    ensures m == n
  {
    var s, t := DecNat(m), DecNat(n);
    if m >= 10 {
      DecNatChars(m / 10);
    }
    if n >= 10 {
      DecNatChars(n / 10);
    }
    assert s[|s| - 1] == Digit(m % 10) && t[|t| - 1] == Digit(n % 10);
    if m >= 10 {
      assert s[..|s| - 1] == DecNat(m / 10) && t[..|t| - 1] == DecNat(n / 10);
      DecNatInjective(m / 10, n / 10);
    }
  }

  lemma DecInjective(m: int, n: int)
    requires Dec(m) == Dec(n)
    ensures m == n
  {
    DecNatChars(if m < 0 then -m else m);
    DecNatChars(if n < 0 then -n else n);
    var s, t := Dec(m), Dec(n);
    assert (if m < 0 then s[0] == '-' else s[0] in s) && (if n < 0 then t[0] == '-' else t[0] in t);
    assert m < 0 <==> n < 0;
    if m < 0 {
      assert s[1..] == DecNat(-m) && t[1..] == DecNat(-n);
      DecNatInjective(-m, -n);
    } else {
      DecNatInjective(m, n);
    }
  }

  /** A field up to a delimiter it does not contain is read off uniquely. */
  lemma SplitUnique(a: string, x: string, b: string, y: string, d: char)
    requires a + ([d] + x) == b + ([d] + y) && d !in a && d !in b
    ensures a == b && x == y
  {
    var s, t := a + ([d] + x), b + ([d] + y);
    assert s[|a|] == d && t[|b|] == d;
    assert |a| == |b|;
    assert a == s[..|a|] && b == t[..|b|];
    assert x == s[|a| + 1..] && y == t[|b| + 1..];
  }

  lemma NumberUnique(m: int, x: string, n: int, y: string)
    requires Number(m, x) == Number(n, y)
    ensures m == n && x == y
  {
    DecChars(m);
    DecChars(n);
    SplitUnique(Dec(m), x, Dec(n), y, ',');
    DecInjective(m, n);
  }

  lemma QuotedUnique(s: string, x: string, t: string, y: string)
    requires Quoted(s, x) == Quoted(t, y) && '\"' !in s && '\"' !in t
    ensures s == t && x == y
  {
    assert Quoted(s, x)[1..] == s + ("\"" + ("," + x)) && Quoted(t, y)[1..] == t + ("\"" + ("," + y));
    SplitUnique(s, "," + x, t, "," + y, '\"');
    assert ("," + x)[1..] == x && ("," + y)[1..] == y;
  }

  lemma CanonicalInjective(f: Fields, g: Fields)
    requires QuoteFree(f) && QuoteFree(g) && Canonical(f) == Canonical(g)
    ensures f == g
  {
    hide Number, Quoted, Dec;
    var f5, g5 := Dec(f.size) + ("]" + ""), Dec(g.size) + ("]" + "");
    var f4, g4 := Quoted(f.sha, f5), Quoted(g.sha, g5);
    var f3, g3 := Number(f.chunks, f4), Number(g.chunks, g4);
    var f2, g2 := Number(f.chunkSize, f3), Number(g.chunkSize, g3);
    var f1, g1 := Quoted(f.nonce, f2), Quoted(g.nonce, g2);
    assert Canonical(f)[1..] == Number(f.version, f1) && Canonical(g)[1..] == Number(g.version, g1);
    NumberUnique(f.version, f1, g.version, g1);
    QuotedUnique(f.nonce, f2, g.nonce, g2);
    NumberUnique(f.chunkSize, f3, g.chunkSize, g3);
    NumberUnique(f.chunks, f4, g.chunks, g4);
    QuotedUnique(f.sha, f5, g.sha, g5);
    DecChars(f.size);
    DecChars(g.size);
    SplitUnique(Dec(f.size), "", Dec(g.size), "", ']');
    DecInjective(f.size, g.size);
  }

  lemma NumberText(n: int, rest: string)
    ensures Number(n, rest) == Dec(n) + "," + rest
  {
    hide Dec;
    Associates(Dec(n), ",", rest);
  }

  lemma QuotedText(s: string, rest: string)
    ensures Quoted(s, rest) == "\"" + s + "\"," + rest
  {
    var t := "\"" + ("," + rest);
    assert t == "\"," + rest;
    Associates("\"", s, t);
    Associates("\"" + s, "\",", rest);
  }

  /** The text, written out in two parts. */
  lemma CanonicalIsTheLine(f: Fields)
    ensures var back := Dec(f.chunks) + "," + ("\"" + f.sha + "\"," + (Dec(f.size) + "]"));
      Canonical(f) == "[" + (Dec(f.version) + "," + ("\"" + f.nonce + "\"," + (Dec(f.chunkSize) + "," + back)))
  {
    hide Dec, Quoted, Number;
    var last := Dec(f.size) + "]";
    assert last == Dec(f.size) + ("]" + "");
    QuotedText(f.sha, last);
    NumberText(f.chunks, Quoted(f.sha, last));
    NumberText(f.chunkSize, Number(f.chunks, Quoted(f.sha, last)));
    QuotedText(f.nonce, Number(f.chunkSize, Number(f.chunks, Quoted(f.sha, last))));
    NumberText(f.version, Quoted(f.nonce, Number(f.chunkSize, Number(f.chunks, Quoted(f.sha, last)))));
  }

  /** The value of decimal digits. */
  function Value(s: string): int {
    if s == "" then 0 else 10 * Value(s[..|s| - 1]) + (s[|s| - 1] as int - '0' as int)
  }

  /** A number is printed in its decimal digits, without needless zeros before them. */
  lemma {:induction false} DecimalIsPrinted(n: nat)
    ensures Value(DecNat(n)) == n && (DecNat(n)[0] == '0' <==> n == 0)
  {
    var s := DecNat(n);
    if n >= 10 {
      DecimalIsPrinted(n / 10);
      assert s[..|s| - 1] == DecNat(n / 10);
    } else {
      assert s[..0] == "";
    }
  }

  function Pow10(k: nat): nat {
    if k == 0 then 1 else 10 * Pow10(k - 1)
  }

  lemma {:induction false} DecNatLength(n: nat, k: nat)
    requires 0 < k && n < Pow10(k)
    ensures |DecNat(n)| <= k
  {
    if n >= 10 {
      assert k > 1;
      DecNatLength(n / 10, k - 1);
    }
  }

  /** The line of any fields that the parser or the sanitizer leaves fits in the buffer: 32 bit numbers,
      a size of 63 bits, a nonce of 47 characters and a digest of 64. */
  lemma RealFieldsFit(f: Fields)
    requires 0 <= f.version < 0x8000_0000 && 0 <= f.chunkSize < 0x8000_0000 && 0 <= f.chunks < 0x8000_0000
    requires 0 <= f.size < 0x8000_0000_0000_0000 && |f.nonce| <= 47 && |f.sha| <= 64
    ensures BuildCanonical(f) == Some(Canonical(f)) && |Canonical(f)| <= 171
  {
    TenDigits();
    DecNatLength(f.version, 10);
    DecNatLength(f.chunkSize, 10);
    DecNatLength(f.chunks, 10);
    DecNatLength(f.size, 19);
    hide DecNat;
    var f5 := Dec(f.size) + ("]" + "");
    var f4 := Quoted(f.sha, f5);
    var f3 := Number(f.chunks, f4);
    var f2 := Number(f.chunkSize, f3);
    var f1 := Quoted(f.nonce, f2);
    assert |f4| <= 87 && |f3| <= 98 && |f2| <= 109 && |f1| <= 159;
    assert Canonical(f) == "[" + Number(f.version, f1);
  }

  lemma TenDigits()
    ensures Pow10(10) == 10_000_000_000 && Pow10(19) == 10_000_000_000_000_000_000
  {
    assert Pow10(5) == 100_000;
    assert Pow10(10) == 10_000_000_000;
    assert Pow10(15) == 1_000_000_000_000_000;
  }

  // ---------------------------------------------------------------------------
  // Hex

  function HexDigit(d: nat): char
    requires d < 16
  {
    "0123456789abcdef"[d]
  }

  function HexValue(c: char): Option<nat> {
    if '0' <= c <= '9' then Some(c as nat - '0' as nat)
    else if 'a' <= c <= 'f' then Some(c as nat - 'a' as nat + 10)
    else if 'A' <= c <= 'F' then Some(c as nat - 'A' as nat + 10)
    else None
  }

  function HexEncode(b: bytes): (s: string)
    ensures |s| == 2 * |b|
  {
    if b == [] then "" else
      var v: int := b[0];
      [HexDigit(v / 16), HexDigit(v % 16)] + HexEncode(b[1..])
  }

  /** Each byte as two digits, the high one first, in small letters. */
  lemma {:induction false} HexText(b: bytes, i: nat)
    requires i < |b|
    ensures var (s, v: int) := (HexEncode(b), b[i]);
      s[2 * i] == "0123456789abcdef"[v / 16] && s[2 * i + 1] == "0123456789abcdef"[v % 16]
  {
    if i > 0 {
      HexText(b[1..], i - 1);
    }
  }

  function HexDecode(s: string): Option<bytes> {
    if s == "" then Some([])
    else if |s| < 2 then None
    else
      match (HexValue(s[0]), HexValue(s[1]), HexDecode(s[2..]))
      case (Some(h), Some(l), Some(rest)) =>
        if h < 16 && l < 16 then Some([h * 16 + l] + rest) else None
      case _ => None
  }

  /** Hex digits are read small or capital, and nothing else is. */
  lemma HexValueExactly(c: char)
    ensures HexValue(c).Some? <==> c in "0123456789abcdefABCDEF"
    ensures HexValue(c).Some? ==>
              HexValue(c).value < 16 && ("0123456789abcdef"[HexValue(c).value] == c || "0123456789ABCDEF"[HexValue(c).value] == c)
  {
  }

  lemma HexDigitValue(d: nat)
    requires d < 16
    ensures HexValue(HexDigit(d)) == Some(d)
  {
  }

  lemma HexDecodePair(d: nat, e: nat, s: string)
    requires d < 16 && e < 16 && HexDecode(s).Some?
    ensures HexDecode([HexDigit(d), HexDigit(e)] + s) == Some([d * 16 + e] + HexDecode(s).value)
  {
    HexDigitValue(d);
    HexDigitValue(e);
    hide HexDigit, HexValue;
    assert ([HexDigit(d), HexDigit(e)] + s)[2..] == s;
  }

  lemma {:induction false} HexRoundTrip(b: bytes)
    ensures HexDecode(HexEncode(b)) == Some(b)
  {
    if b != [] {
      hide HexDecode, HexDigit;
      var v: int := b[0];
      var hi, lo, rest := v / 16, v % 16, HexEncode(b[1..]);
      assert HexEncode(b) == [HexDigit(hi), HexDigit(lo)] + rest;
      hide HexEncode;
      HexRoundTrip(b[1..]);
      HexDecodePair(hi, lo, rest);
      assert b == [hi * 16 + lo] + b[1..];
    }
  }

  lemma {:induction false} HexIsQuoteFree(b: bytes)
    ensures '\"' !in HexEncode(b)
  {
    if b != [] {
      HexIsQuoteFree(b[1..]);
    }
  }

  lemma HexInjective(a: bytes, b: bytes)
    requires HexEncode(a) == HexEncode(b)
    ensures a == b
  {
    hide HexEncode, HexDecode;
    HexRoundTrip(a);
    HexRoundTrip(b);
  }

  // ---------------------------------------------------------------------------
  // The MAC

  /** tee_compute_metadata_mac. */
  function ComputeMac(hmac: (bytes, string) -> bytes, key: bytes, f: Fields): Option<string> {
    match BuildCanonical(f)
    case None => None
    case Some(line) => Some(HexEncode(hmac(key, line)))
  }

  /** tee_verify_metadata_mac: the first 64 hex characters of the claim against the MAC. */
  predicate MacVerifies(hmac: (bytes, string) -> bytes, key: bytes, f: Fields, claim: string) {
    && |claim| >= 2 * MAC_SIZE
    && BuildCanonical(f).Some?
    && HexDecode(claim[..2 * MAC_SIZE]) == Some(hmac(key, Canonical(f)))
  }

  /** A MAC computed for `f` is accepted for `g` exactly when the HMAC of their lines agree; and
      that is either the identical six fields or a collision of the HMAC itself. */
  lemma MacBindsFields(hmac: (bytes, string) -> bytes, key: bytes, f: Fields, g: Fields)
    requires QuoteFree(f) && QuoteFree(g)
    requires BuildCanonical(f).Some? && BuildCanonical(g).Some?
    requires |hmac(key, Canonical(f))| == MAC_SIZE
    ensures MacVerifies(hmac, key, g, ComputeMac(hmac, key, f).value)
       <==> hmac(key, Canonical(g)) == hmac(key, Canonical(f))
    ensures MacVerifies(hmac, key, g, ComputeMac(hmac, key, f).value) ==>
              f == g || (Canonical(f) != Canonical(g) && hmac(key, Canonical(f)) == hmac(key, Canonical(g)))
  {
    var mac := hmac(key, Canonical(f));
    HexRoundTrip(mac);
    assert HexEncode(mac)[..2 * MAC_SIZE] == HexEncode(mac);
    if Canonical(f) == Canonical(g) {
      CanonicalInjective(f, g);
    }
  }
}
