/** UTF-8 as Rust's `CStr::to_str` and `CStr::to_string_lossy` see it: the well-formed
    byte sequences of Table 3-7 in section 3.9 of the Unicode Standard, and lossy
    decoding that replaces each maximal ill-formed subpart with U+FFFD. */
module Utf8 {
  import opened Common

  type Bytes = seq<u8>

  /** U+FFFD REPLACEMENT CHARACTER, encoded. */
  const Replacement: Bytes := [0xEF, 0xBF, 0xBD]

  /** Length of the sequence a lead byte starts, or 0 for a byte that cannot lead. */
  function Width(b: u8): nat {
    if b < 0x80 then 1
    else if 0xC2 <= b <= 0xDF then 2
    else if 0xE0 <= b <= 0xEF then 3
    else if 0xF0 <= b <= 0xF4 then 4
    else 0
  }

  /** The second byte's range depends on the lead (no overlongs, no surrogates, nothing
      above U+10FFFF); later bytes are plain continuation bytes. */
  function SecondLo(b: u8): u8 {
    if b == 0xE0 then 0xA0 else if b == 0xF0 then 0x90 else 0x80
  }

  function SecondHi(b: u8): u8 {
    if b == 0xED then 0x9F else if b == 0xF4 then 0x8F else 0xBF
  }

  predicate Continuation(b: u8) {
    0x80 <= b <= 0xBF
  }

  /** How many leading bytes of `s` agree with some well-formed sequence: the whole
      sequence when they all do, otherwise its maximal subpart (at least the lead). */
  function Matched(s: Bytes): (k: nat)
    requires |s| > 0 && Width(s[0]) >= 2
    ensures 1 <= k <= Width(s[0]) && k <= |s|
  {
    var w := Width(s[0]);
    if |s| < 2 || !(SecondLo(s[0]) <= s[1] <= SecondHi(s[0])) then 1
    else if w == 2 || |s| < 3 || !Continuation(s[2]) then 2
    else if w == 3 || |s| < 4 || !Continuation(s[3]) then 3
    else 4
  }

  /** One decoding step: a whole character, or an ill-formed run to be replaced. */
  datatype Scan = Char(len: nat) | Bad(len: nat)

  function ScanOne(s: Bytes): (r: Scan)
    requires |s| > 0
    ensures 1 <= r.len <= |s| && r.len <= 4
    ensures r.Char? ==> r.len == Width(s[0])
    ensures r.Bad? ==> r.len <= 3
  {
    var w := Width(s[0]);
    if w == 0 then Bad(1)
    else if w == 1 then Char(1)
    else
      var k := Matched(s);
      if k == w then Char(w) else Bad(k)
  }

  /** Well-formed UTF-8: the byte string splits into whole characters. */
  predicate Valid(s: Bytes)
    decreases |s|
  {
    |s| == 0 || (ScanOne(s).Char? && Valid(s[ScanOne(s).len..]))
  }

  /** `CStr::to_str(..).ok()`: the text when it is well-formed, nothing otherwise. */
  function ToStr(s: Bytes): (r: Option<Bytes>)
    ensures r.Some? <==> Valid(s)
    ensures r.Some? ==> r.value == s
  {
    if Valid(s) then Some(s) else None
  }

  /** `CStr::to_string_lossy`: whole characters are kept, every maximal ill-formed
      subpart becomes one U+FFFD. */
  function Lossy(s: Bytes): (r: Bytes)
    ensures Valid(s) ==> r == s
    ensures |s| <= |r| <= 3 * |s|
    decreases |s|
  {
    if |s| == 0 then []
    else
      var n := ScanOne(s).len;
      assert s[..n] + s[n..] == s;
      (if ScanOne(s).Char? then s[..n] else Replacement) + Lossy(s[n..])
  }

  /** A whole character at the front is recognised whatever follows it. */
  lemma ScanPrefix(a: Bytes, b: Bytes)
    requires |a| > 0 && ScanOne(a) == Char(|a|)
    ensures ScanOne(a + b) == Char(|a|)
  {
    var s := a + b;
    assert forall i :: 0 <= i < |a| ==> s[i] == a[i];
  }

  lemma ConcatValid(a: Bytes, b: Bytes)
    requires |a| > 0 && ScanOne(a) == Char(|a|)
    requires Valid(b)
    ensures Valid(a + b)
  {
    ScanPrefix(a, b);
    assert (a + b)[|a|..] == b;
  }

  /** Lossy decoding leaves well-formed text untouched. */
  lemma {:induction false} LossyKeepsValid(s: Bytes)
    requires Valid(s)
    ensures Lossy(s) == s
    decreases |s|
  {
    if |s| > 0 {
      var n := ScanOne(s).len;
      LossyKeepsValid(s[n..]);
      assert s[..n] + s[n..] == s;
    }
  }

  /** Lossy decoding always produces well-formed text. */
  lemma {:induction false} LossyIsValid(s: Bytes)
    ensures Valid(Lossy(s))
    decreases |s|
  {
    if |s| > 0 {
      var n := ScanOne(s).len;
      LossyIsValid(s[n..]);
      var head := if ScanOne(s).Char? then s[..n] else Replacement;
      if ScanOne(s).Char? {
        ScanPrefix(s[..n], s[n..]);
        assert s[..n] + s[n..] == s;
        assert ScanOne(s[..n]) == Char(n) by {
          var w := Width(s[0]);
          if w >= 2 {
            assert forall i :: 0 <= i < n ==> s[..n][i] == s[i];
          }
        }
      }
      ConcatValid(head, Lossy(s[n..]));
    }
  }

  /** So the two conversions agree exactly on well-formed text: `to_string_lossy`
      returns its input unchanged if and only if `to_str` accepts it. */
  lemma LossyUnchangedIffValid(s: Bytes)
    ensures Lossy(s) == s <==> ToStr(s).Some?
  {
    if Valid(s) {
      LossyKeepsValid(s);
    } else {
      LossyIsValid(s);
    }
  }

  // ---------------------------------------------------------------------------
  // Encoding, to show that `Valid` accepts every well-formed text

  predicate IsScalar(c: int) {
    0 <= c <= 0x10FFFF && !(0xD800 <= c <= 0xDFFF)
  }

  function EncodeScalar(c: int): (r: Bytes)
    requires IsScalar(c)
    ensures 1 <= |r| <= 4
  {
    if c < 0x80 then [c]
    else if c < 0x800 then [0xC0 + c / 64, 0x80 + c % 64]
    else if c < 0x10000 then [0xE0 + c / 4096, 0x80 + (c / 64) % 64, 0x80 + c % 64]
    else [0xF0 + c / 262144, 0x80 + (c / 4096) % 64, 0x80 + (c / 64) % 64, 0x80 + c % 64]
  }

  /** Every scalar value's encoding is read back as one whole character. */
  lemma EncodeScalarScans(c: int)
    requires IsScalar(c)
    ensures ScanOne(EncodeScalar(c)) == Char(|EncodeScalar(c)|)
  {
    var r := EncodeScalar(c);
    if 0x800 <= c < 0x10000 {
      assert 0 <= c / 4096 <= 15;
      if c / 4096 == 0 {
        assert c / 64 >= 32;
      }
      if c / 4096 == 13 {
        assert c < 0xD800;
        assert (c / 64) % 64 < 32;
      }
    } else if c >= 0x10000 {
      assert 0 <= c / 262144 <= 4;
      if c / 262144 == 0 {
        assert c / 4096 >= 16;
      }
      if c / 262144 == 4 {
        assert (c / 4096) % 64 <= 15;
      }
    }
  }

  function Encode(cs: seq<int>): (r: Bytes)
    requires forall i :: 0 <= i < |cs| ==> IsScalar(cs[i])
  {
    if |cs| == 0 then [] else EncodeScalar(cs[0]) + Encode(cs[1..])
  }

  /** The encoding of any sequence of scalar values is accepted by `to_str`. */
  lemma {:induction false} EncodeIsValid(cs: seq<int>)
    requires forall i :: 0 <= i < |cs| ==> IsScalar(cs[i])
    ensures ToStr(Encode(cs)) == Some(Encode(cs))
  {
    if |cs| > 0 {
      EncodeIsValid(cs[1..]);
      EncodeScalarScans(cs[0]);
      ConcatValid(EncodeScalar(cs[0]), Encode(cs[1..]));
    }
  }
}
