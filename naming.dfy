/** Content-addressed object keys: `"{id}-{idx}.{ext}"`, where `id` is the
    hex digest of the uploaded bytes, `idx` the zero-based page number in
    decimal and `ext` the output format's extension. */
module Naming {
  import opened Wrappers
  import opened Formats

  type Bytes = seq<bv8>

  predicate IsHexChar(c: char) {
    '0' <= c <= '9' || 'a' <= c <= 'f'
  }

  /** What `blake3::hash(..).to_hex()` yields: 64 lower-case hex digits. */
  predicate IsHexDigest(s: string) {
    |s| == 64 && forall i :: 0 <= i < |s| ==> IsHexChar(s[i])
  }

  type Digest = s: string | IsHexDigest(s)
    witness seq(64, _ => '0')

  /** The content hash is not modelled; it enters as a function from the
      uploaded bytes to a digest, so it is deterministic by construction. */
  type Hasher = Bytes -> Digest

  function DigitChar(d: nat): char
    requires d < 10
  {
    "0123456789"[d]
  }

  function DigitValue(c: char): nat
    requires '0' <= c <= '9'
  {
    (c as int - '0' as int) as nat
  }

  predicate AllDigits(s: string) {
    forall i :: 0 <= i < |s| ==> '0' <= s[i] <= '9'
  }

  /** The shape Rust's `Display` gives an unsigned integer: one or more
      decimal digits, no leading zero unless the number is zero. */
  predicate IsCanonicalDecimal(s: string) {
    |s| > 0 && AllDigits(s) && (|s| == 1 || s[0] != '0')
  }

  /** `{idx}` in the key: the decimal rendering of a page index. */
  function Decimal(n: nat): (s: string)
    ensures IsCanonicalDecimal(s)
    ensures n < 10 <==> |s| == 1
  {
    if n < 10 then [DigitChar(n)] else Decimal(n / 10) + [DigitChar(n % 10)]
  }

  /** The number a string of decimal digits denotes. */
  function ParseDecimal(s: string): nat
    requires AllDigits(s)
  {
    if |s| == 0 then 0 else ParseDecimal(s[..|s| - 1]) * 10 + DigitValue(s[|s| - 1])
  }

  lemma {:induction false} DecimalRoundTrip(n: nat)
    ensures ParseDecimal(Decimal(n)) == n
  {
    var s := Decimal(n);
    if n >= 10 {
      DecimalRoundTrip(n / 10);
      assert s[..|s| - 1] == Decimal(n / 10);
    }
  }

  lemma {:induction false} ParseDecimalPositive(s: string)
    requires |s| > 0 && AllDigits(s) && s[0] != '0'
    ensures ParseDecimal(s) >= 1
  {
    if |s| > 1 {
      ParseDecimalPositive(s[..|s| - 1]);
    }
  }

  lemma DivModTen(p: nat, d: nat)
    requires d < 10
    ensures (p * 10 + d) / 10 == p && (p * 10 + d) % 10 == d
  {
  }

  lemma DigitCharValue(c: char)
    requires '0' <= c <= '9'
    ensures DigitValue(c) < 10 && DigitChar(DigitValue(c)) == c
  {
  }

  /** Every canonical decimal string is the rendering of the number it
      denotes, so `Decimal` and `ParseDecimal` are inverse bijections. */
  lemma {:induction false} CanonicalDecimalRoundTrip(s: string)
    requires IsCanonicalDecimal(s)
    ensures Decimal(ParseDecimal(s)) == s
  {
    if |s| > 1 {
      var init := s[..|s| - 1];
      ParseDecimalPositive(init);
      CanonicalDecimalRoundTrip(init);
      var p, last := ParseDecimal(init), s[|s| - 1];
      var n := ParseDecimal(s);
      assert n == p * 10 + DigitValue(last);
      DivModTen(p, DigitValue(last));
      DigitCharValue(last);
      assert Decimal(n) == Decimal(p) + [DigitChar(DigitValue(last))];
      assert s == init + [last];
    }
  }

  /** The position of the first `c` in `s`, or `|s|` when there is none. */
  function IndexOf(s: string, c: char): (k: nat)
    ensures k <= |s|
    ensures k < |s| ==> s[k] == c
    ensures forall i :: 0 <= i < k ==> s[i] != c
  {
    if |s| == 0 then 0 else if s[0] == c then 0 else 1 + IndexOf(s[1..], c)
  }

  /** The first `c` after a prefix without one is where the prefix ends. */
  lemma {:induction false} IndexOfAfter(a: string, c: char, b: string)
    requires forall i :: 0 <= i < |a| ==> a[i] != c
    ensures IndexOf(a + [c] + b, c) == |a|
  {
    if |a| > 0 {
      assert (a + [c] + b)[1..] == a[1..] + [c] + b;
      IndexOfAfter(a[1..], c, b);
    }
  }

  /** The parts a key is made of. */
  datatype KeyParts = KeyParts(id: Digest, index: nat, format: OutputFormat)

  /** The `"{id}-{idx}.{ext}"` name of one page image (`format!` in
      `process_pdf`). It can be read back into the digest, the page index and
      the format it was made from. */
  function ObjectKey(id: Digest, idx: nat, format: OutputFormat): (key: string)
    ensures ParseKey(key) == Some(KeyParts(id, idx, format))
  {
    KeyRoundTrip(id, idx, format);
    id + "-" + Decimal(idx) + "." + Extension(format)
  }

  /** Splits a key at its first '-' and the first '.' after it, and accepts it
      only when the three parts are a digest, a canonical decimal and a known
      extension. */
  function ParseKey(key: string): Option<KeyParts> {
    var dash := IndexOf(key, '-');
    if dash == |key| then None
    else
      var id, rest := key[..dash], key[dash + 1..];
      var dot := IndexOf(rest, '.');
      if dot == |rest| then None
      else
        var digits, ext := rest[..dot], rest[dot + 1..];
        if !IsHexDigest(id) || !IsCanonicalDecimal(digits) then None
        else
          match FromExtension(ext)
          case None => None
          case Some(f) => Some(KeyParts(id, ParseDecimal(digits), f))
  }

  lemma KeyRoundTrip(id: Digest, idx: nat, format: OutputFormat)
    ensures ParseKey(id + "-" + Decimal(idx) + "." + Extension(format)) == Some(KeyParts(id, idx, format))
  {
    var digits, ext := Decimal(idx), Extension(format);
    var key := id + "-" + digits + "." + ext;
    var rest := digits + "." + ext;
    assert key == id + "-" + rest;
    assert forall i :: 0 <= i < |id| ==> IsHexChar(id[i]);
    IndexOfAfter(id, '-', rest);
    assert key[..|id|] == id;
    assert key[|id| + 1..] == rest;
    IndexOfAfter(digits, '.', ext);
    assert rest[..|digits|] == digits;
    assert rest[|digits| + 1..] == ext;
    DecimalRoundTrip(idx);
  }

  /** `ParseKey` accepts exactly the keys `ObjectKey` makes: whatever it
      accepts is rebuilt unchanged from the parts it returns. */
  lemma ParsedKeyRebuilds(key: string)
    requires ParseKey(key).Some?
    ensures var p := ParseKey(key).value; ObjectKey(p.id, p.index, p.format) == key
  {
    var p := ParseKey(key).value;
    var dash := IndexOf(key, '-');
    var rest := key[dash + 1..];
    var dot := IndexOf(rest, '.');
    var digits, ext := rest[..dot], rest[dot + 1..];
    assert p.id == key[..dash];
    assert IsCanonicalDecimal(digits) && p.index == ParseDecimal(digits);
    assert FromExtension(ext) == Some(p.format);
    CanonicalDecimalRoundTrip(digits);
    assert digits == Decimal(p.index);
    FromExtensionExact(ext, p.format);
    assert ext == Extension(p.format);
    SplitAt(rest, dot);
    assert rest == digits + "." + ext;
    SplitAt(key, dash);
    assert key == p.id + "-" + rest;
    assert key == p.id + "-" + Decimal(p.index) + "." + Extension(p.format);
  }

  /** A string is its part before position `k`, the character at `k`, and
      its part after. */
  lemma SplitAt(s: string, k: nat)
    requires k < |s|
    ensures s == s[..k] + [s[k]] + s[k + 1..]
  {
  }

  /** Different pages, formats or documents (digests) never share a key. */
  lemma ObjectKeyInjective(id1: Digest, i1: nat, f1: OutputFormat, id2: Digest, i2: nat, f2: OutputFormat)
    ensures ObjectKey(id1, i1, f1) == ObjectKey(id2, i2, f2) <==> id1 == id2 && i1 == i2 && f1 == f2
  {
  }

  /** A key made in the default format ends in ".png". */
  lemma DefaultKeyIsPng(id: Digest, idx: nat)
    ensures var key := ObjectKey(id, idx, DefaultFormat());
      |key| >= 4 && key[|key| - 4..] == ".png"
  {
    var key := ObjectKey(id, idx, DefaultFormat());
    assert key == (id + "-" + Decimal(idx)) + ".png";
  }
}
