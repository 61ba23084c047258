/**
 * `encodeURIComponent` and `decodeURIComponent` of ECMA-262 (section 19.2.6:
 * the abstract operations Encode and Decode), over UTF-16 code units. Both
 * throw a URIError on some inputs, modelled as `None`: Encode on an unpaired
 * surrogate, Decode on a malformed `%` escape or an invalid UTF-8 sequence.
 */
module UriComponent {
  import opened Wrappers
  import opened Utf16

  /** uriUnreserved of ECMA-262: the code units encodeURIComponent leaves as they are. */
  predicate IsUnreserved(c: CodeUnit) {
    || (0x41 <= c <= 0x5A) || (0x61 <= c <= 0x7A) || (0x30 <= c <= 0x39)
    || c == 0x2D || c == 0x5F || c == 0x2E || c == 0x21 || c == 0x7E
    || c == 0x2A || c == 0x27 || c == 0x28 || c == 0x29
  }

  predicate IsHighSurrogate(c: CodeUnit) {
    0xD800 <= c <= 0xDBFF
  }

  predicate IsLowSurrogate(c: CodeUnit) {
    0xDC00 <= c <= 0xDFFF
  }

  /** A Unicode scalar value: a code point that is not a surrogate. */
  type Scalar = n: int | 0 <= n <= 0x10_FFFF && !(0xD800 <= n <= 0xDFFF)

  /** The UTF-16 code units of a scalar value. */
  function Utf16Units(cp: Scalar): (r: JsString)
    ensures 1 <= |r| <= 2
  {
    if cp < 0x1_0000 then [cp]
    else [0xD800 + (cp - 0x1_0000) / 0x400, 0xDC00 + (cp - 0x1_0000) % 0x400]
  }

  /** CodePointAt of ECMA-262 (section 11.1.4) at the start of `s`: the scalar value and the
      number of code units it spans, or `None` for an unpaired surrogate. */
  function CodePointAt(s: JsString): (r: Option<(Scalar, nat)>)
    requires |s| > 0
    ensures r.Some? ==> 1 <= r.value.1 <= |s| && Utf16Units(r.value.0) == s[..r.value.1]
    ensures r.None? <==> IsLowSurrogate(s[0]) || (IsHighSurrogate(s[0]) && (|s| == 1 || !IsLowSurrogate(s[1])))
  {
    if IsLowSurrogate(s[0]) then None
    else if !IsHighSurrogate(s[0]) then Some((s[0], 1))
    else if |s| == 1 || !IsLowSurrogate(s[1]) then None
    else Some((0x1_0000 + (s[0] as int - 0xD800) * 0x400 + (s[1] as int - 0xDC00), 2))
  }

  /** The UTF-8 encoding of a scalar value (table 3-6 of the Unicode Standard, section 3.9). */
  function Utf8(cp: Scalar): (r: seq<Byte>)
    ensures 1 <= |r| <= 4
  {
    if cp < 0x80 then [cp]
    else if cp < 0x800 then [0xC0 + cp / 64, 0x80 + cp % 64]
    else if cp < 0x1_0000 then [0xE0 + cp / 4096, 0x80 + (cp / 64) % 64, 0x80 + cp % 64]
    else [0xF0 + cp / 262144, 0x80 + (cp / 4096) % 64, 0x80 + (cp / 64) % 64, 0x80 + cp % 64]
  }

  /** An upper-case hexadecimal digit, as the Encode operation writes them. */
  function HexDigit(d: int): CodeUnit
    requires 0 <= d < 16
  {
    if d < 10 then 0x30 + d else 0x41 + d - 10
  }

  /** The value of a hexadecimal digit of either case. */
  function HexValue(c: CodeUnit): (r: Option<int>)
    ensures r.Some? ==> 0 <= r.value < 16
  {
    if 0x30 <= c <= 0x39 then Some(c - 0x30)
    else if 0x41 <= c <= 0x46 then Some(c - 0x41 + 10)
    else if 0x61 <= c <= 0x66 then Some(c - 0x61 + 10)
    else None
  }

  function HexByte(hi: CodeUnit, lo: CodeUnit): Option<Byte> {
    match (HexValue(hi), HexValue(lo))
    case (Some(h), Some(l)) => Some(h * 16 + l)
    case _ => None
  }

  /** `%XY` for one octet. */
  function Escape(b: Byte): JsString {
    [PERCENT, HexDigit(b / 16), HexDigit(b % 16)]
  }

  function EscapeAll(bs: seq<Byte>): (r: JsString)
    ensures |r| == 3 * |bs|
  {
    if bs == [] then [] else Escape(bs[0]) + EscapeAll(bs[1..])
  }

  /** encodeURIComponent(s). */
  function Encode(s: JsString): Option<JsString>
    decreases |s|
  {
    if |s| == 0 then Some([])
    else if IsUnreserved(s[0]) then
      match Encode(s[1..])
      case None => None
      case Some(t) => Some([s[0]] + t)
    else
      match CodePointAt(s)
      case None => None
      case Some((cp, n)) =>
        match Encode(s[n..])
        case None => None
        case Some(t) => Some(EscapeAll(Utf8(cp)) + t)
  }

  /** How many leading one bits an octet has. */
  function LeadingOnes(b: Byte): nat {
    if b < 0x80 then 0
    else if b < 0xC0 then 1
    else if b < 0xE0 then 2
    else if b < 0xF0 then 3
    else if b < 0xF8 then 4
    else 5
  }

  predicate IsContinuation(b: Byte) {
    0x80 <= b < 0xC0
  }

  /** The continuation octets of a multi-octet escape, read from escapes `j` to `n - 1` of `s`. */
  function Continuations(s: JsString, j: nat, n: nat): (r: Option<seq<Byte>>)
    requires 1 <= j <= n && 3 * n <= |s|
    ensures r.Some? ==> |r.value| == n - j
    decreases n - j
  {
    if j == n then Some([])
    else if s[3 * j] != PERCENT then None
    else
      match HexByte(s[3 * j + 1], s[3 * j + 2])
      case None => None
      case Some(c) =>
        if !IsContinuation(c) then None
        else
          match Continuations(s, j + 1, n)
          case None => None
          case Some(cs) => Some([c] + cs)
  }

  /** The scalar value a multi-octet UTF-8 sequence encodes, if it is well formed (table 3-7
      of the Unicode Standard): no overlong form, no surrogate, nothing above U+10FFFF. */
  function Utf8Value(bs: seq<Byte>): Option<Scalar>
    requires 2 <= |bs| <= 4 && LeadingOnes(bs[0]) == |bs|
    requires forall i :: 1 <= i < |bs| ==> IsContinuation(bs[i])
  {
    if |bs| == 2 then
      var cp := (bs[0] as int - 0xC0) * 64 + (bs[1] as int - 0x80);
      if 0x80 <= cp then Some(cp) else None
    else if |bs| == 3 then
      var cp := (bs[0] as int - 0xE0) * 4096 + (bs[1] as int - 0x80) * 64 + (bs[2] as int - 0x80);
      if 0x800 <= cp && !(0xD800 <= cp <= 0xDFFF) then Some(cp) else None
    else
      var cp := (bs[0] as int - 0xF0) * 262144 + (bs[1] as int - 0x80) * 4096 + (bs[2] as int - 0x80) * 64 + (bs[3] as int - 0x80);
      if 0x1_0000 <= cp <= 0x10_FFFF then Some(cp) else None
  }

  /** One escape sequence at the start of `s` (one to four `%XY` triples): the code units it
      stands for and how many code units of `s` it spans. */
  function DecodeEscape(s: JsString): (r: Option<(JsString, nat)>)
    requires |s| > 0 && s[0] == PERCENT
    ensures r.Some? ==> 3 <= r.value.1 <= |s|
  {
    if |s| < 3 then None
    else
      match HexByte(s[1], s[2])
      case None => None
      case Some(b) =>
        var n := LeadingOnes(b);
        if n == 0 then Some(([b], 3))
        else if n == 1 || n > 4 || |s| < 3 * n then None
        else
          match Continuations(s, 1, n)
          case None => None
          case Some(cs) =>
            assert forall i :: 1 <= i < n ==> ([b] + cs)[i] == cs[i - 1];
            match Utf8Value([b] + cs)
            case None => None
            case Some(cp) => Some((Utf16Units(cp), 3 * n))
  }

  /** decodeURIComponent(s). */
  function Decode(s: JsString): Option<JsString>
    decreases |s|
  {
    if |s| == 0 then Some([])
    else if s[0] != PERCENT then
      match Decode(s[1..])
      case None => None
      case Some(t) => Some([s[0]] + t)
    else
      match DecodeEscape(s)
      case None => None
      case Some((units, n)) =>
        match Decode(s[n..])
        case None => None
        case Some(t) => Some(units + t)
  }

  // ---------------------------------------------------------------------------
  // Round trip

  lemma HexByteOfEscape(b: Byte)
    ensures HexByte(Escape(b)[1], Escape(b)[2]) == Some(b)
  {
  }

  lemma {:induction false} EscapeAllAt(bs: seq<Byte>, j: nat)
    requires j < |bs|
    ensures EscapeAll(bs)[3 * j..3 * j + 3] == Escape(bs[j])
    decreases j
  {
    var e := EscapeAll(bs);
    assert e == Escape(bs[0]) + EscapeAll(bs[1..]);
    if j > 0 {
      var tail := EscapeAll(bs[1..]);
      EscapeAllAt(bs[1..], j - 1);
      assert e[3..] == tail;
      assert e[3 * j..3 * j + 3] == tail[3 * (j - 1)..3 * (j - 1) + 3];
    }
  }

  /** Reading back the continuation escapes of an escaped UTF-8 sequence gives its tail octets. */
  lemma {:induction false} ContinuationsOfEscaped(bs: seq<Byte>, rest: JsString, j: nat)
    requires 1 <= j <= |bs|
    requires forall i :: 1 <= i < |bs| ==> IsContinuation(bs[i])
    ensures Continuations(EscapeAll(bs) + rest, j, |bs|) == Some(bs[j..])
    decreases |bs| - j
  {
    var s := EscapeAll(bs) + rest;
    if j < |bs| {
      EscapeAllAt(bs, j);
      assert s[3 * j..3 * j + 3] == Escape(bs[j]);
      assert s[3 * j] == PERCENT;
      HexByteOfEscape(bs[j]);
      ContinuationsOfEscaped(bs, rest, j + 1);
      assert bs[j..] == [bs[j]] + bs[j + 1..];
    }
  }

  lemma Utf8Facts(cp: Scalar)
    ensures |Utf8(cp)| == 1 <==> cp < 0x80
    ensures |Utf8(cp)| > 1 ==> LeadingOnes(Utf8(cp)[0]) == |Utf8(cp)|
    ensures forall i :: 1 <= i < |Utf8(cp)| ==> IsContinuation(Utf8(cp)[i])
  {
  }

  lemma DivMod64(x: int)
    requires 0 <= x
    ensures x == (x / 64) * 64 + x % 64
  {
  }

  lemma Utf8RoundTrip(cp: Scalar)
    requires 0x80 <= cp
    ensures && |Utf8(cp)| >= 2 && LeadingOnes(Utf8(cp)[0]) == |Utf8(cp)|
            && (forall i :: 1 <= i < |Utf8(cp)| ==> IsContinuation(Utf8(cp)[i]))
            && Utf8Value(Utf8(cp)) == Some(cp)
  {
    Utf8Facts(cp);
    var bs := Utf8(cp);
    if cp < 0x800 {
      DivMod64(cp);
    } else if cp < 0x1_0000 {
      DivMod64(cp);
      DivMod64(cp / 64);
      assert cp / 64 / 64 == cp / 4096;
    } else {
      DivMod64(cp);
      DivMod64(cp / 64);
      DivMod64(cp / 4096);
      assert cp / 64 / 64 == cp / 4096;
      assert cp / 4096 / 64 == cp / 262144;
    }
  }

  /** The escapes Encode writes for one scalar value decode back to its code units. */
  lemma DecodeEscapedScalar(cp: Scalar, rest: JsString)
    ensures EscapeAll(Utf8(cp))[0] == PERCENT
    ensures DecodeEscape(EscapeAll(Utf8(cp)) + rest) == Some((Utf16Units(cp), 3 * |Utf8(cp)|))
  {
    var bs := Utf8(cp);
    var s := EscapeAll(bs) + rest;
    EscapeAllAt(bs, 0);
    assert s[..3] == Escape(bs[0]);
    HexByteOfEscape(bs[0]);
    Utf8Facts(cp);
    if cp >= 0x80 {
      ContinuationsOfEscaped(bs, rest, 1);
      assert [bs[0]] + bs[1..] == bs;
      Utf8RoundTrip(cp);
    }
  }

  /** One escaped scalar value in front of a string that decodes: the whole decodes to the
      scalar's code units followed by that string's decoding. */
  lemma DecodeAfterEscapedScalar(cp: Scalar, t: JsString, rest: JsString)
    requires Decode(t) == Some(rest)
    ensures Decode(EscapeAll(Utf8(cp)) + t) == Some(Utf16Units(cp) + rest)
  {
    var e := EscapeAll(Utf8(cp)) + t;
    DecodeEscapedScalar(cp, t);
    var k := 3 * |Utf8(cp)|;
    assert |EscapeAll(Utf8(cp))| == k by { EscapeAllLength(Utf8(cp)); }
    assert e[k..] == t;
  }

  /** Encode writes the escapes of the leading scalar value, then encodes the rest. */
  lemma EncodeEscaped(s: JsString)
    requires |s| > 0 && !IsUnreserved(s[0]) && Encode(s).Some?
    ensures CodePointAt(s).Some?
    ensures Encode(s[CodePointAt(s).value.1..]).Some?
    ensures Encode(s).value == EscapeAll(Utf8(CodePointAt(s).value.0)) + Encode(s[CodePointAt(s).value.1..]).value
  {
  }

  /** An unreserved code unit in front of a string that decodes is kept as it is. */
  lemma DecodeAfterUnreserved(c: CodeUnit, t: JsString, rest: JsString)
    requires IsUnreserved(c) && Decode(t) == Some(rest)
    ensures Decode([c] + t) == Some([c] + rest)
  {
    assert ([c] + t)[1..] == t;
  }

  lemma {:induction false} EscapeAllLength(bs: seq<Byte>)
    ensures |EscapeAll(bs)| == 3 * |bs|
    decreases |bs|
  {
    if bs != [] {
      EscapeAllLength(bs[1..]);
    }
  }

  /** Code unit `i` is a surrogate without its partner: a high surrogate not followed by a low
      one, or a low surrogate not preceded by a high one. */
  predicate UnpairedAt(s: JsString, i: int) {
    && 0 <= i < |s|
    && (|| (IsHighSurrogate(s[i]) && (i + 1 == |s| || !IsLowSurrogate(s[i + 1])))
        || (IsLowSurrogate(s[i]) && (i == 0 || !IsHighSurrogate(s[i - 1]))))
  }

  predicate HasLoneSurrogate(s: JsString) {
    exists i :: 0 <= i < |s| && UnpairedAt(s, i)
  }

  /** Past a code unit that is not a high surrogate, being unpaired is a property of the suffix. */
  lemma UnpairedInSuffix(s: JsString, n: nat, i: int)
    requires 1 <= n <= i < |s| && !IsHighSurrogate(s[n - 1])
    ensures UnpairedAt(s, i) <==> UnpairedAt(s[n..], i - n)
  {
    assert s[n..][i - n] == s[i];
    if i > n {
      assert s[n..][i - n - 1] == s[i - 1];
    }
    if i + 1 < |s| {
      assert s[n..][i - n + 1] == s[i + 1];
    }
  }

  /** encodeURIComponent throws exactly on the strings holding a lone surrogate. */
  lemma {:induction false} EncodeFailsOnLoneSurrogates(s: JsString)
    ensures Encode(s).None? <==> HasLoneSurrogate(s)
    decreases |s|
  {
    if |s| > 0 {
      if IsUnreserved(s[0]) || CodePointAt(s).Some? {
        var n := if IsUnreserved(s[0]) then 1 else CodePointAt(s).value.1;
        assert n == 1 || n == 2;
        assert n == 2 ==> IsHighSurrogate(s[0]) && IsLowSurrogate(s[1]);
        assert n == 1 ==> !IsHighSurrogate(s[0]) && !IsLowSurrogate(s[0]);
        assert !UnpairedAt(s, 0);
        assert n == 2 ==> !UnpairedAt(s, 1);
        assert Encode(s).None? <==> Encode(s[n..]).None?;
        EncodeFailsOnLoneSurrogates(s[n..]);
        if HasLoneSurrogate(s) {
          var i :| 0 <= i < |s| && UnpairedAt(s, i);
          assert i != 0;
          assert i >= n;
          UnpairedInSuffix(s, n, i);
        }
        if HasLoneSurrogate(s[n..]) {
          var j :| 0 <= j < |s[n..]| && UnpairedAt(s[n..], j);
          UnpairedInSuffix(s, n, j + n);
        }
      } else {
        assert UnpairedAt(s, 0);
      }
    }
  }

  /** Encode keeps a leading unreserved code unit and encodes the rest. */
  lemma EncodeUnreserved(s: JsString)
    requires |s| > 0 && IsUnreserved(s[0]) && Encode(s).Some?
    ensures Encode(s[1..]).Some?
    ensures Encode(s).value == [s[0]] + Encode(s[1..]).value
  {
  }

  /** decodeURIComponent undoes encodeURIComponent whenever the latter does not throw. */
  lemma {:induction false} DecodeEncode(s: JsString)
    requires Encode(s).Some?
    ensures Decode(Encode(s).value) == Some(s)
    decreases |s|, 1
  {
    if |s| > 0 {
      if IsUnreserved(s[0]) {
        DecodeEncodeUnreserved(s);
      } else {
        DecodeEncodeEscaped(s);
      }
    }
  }

  lemma {:induction false} DecodeEncodeUnreserved(s: JsString)
    requires |s| > 0 && IsUnreserved(s[0]) && Encode(s).Some?
    ensures Decode(Encode(s).value) == Some(s)
    decreases |s|, 0
  {
    EncodeUnreserved(s);
    var t := Encode(s[1..]).value;
    DecodeEncode(s[1..]);
    DecodeAfterUnreserved(s[0], t, s[1..]);
    assert s == [s[0]] + s[1..];
  }

  lemma {:induction false} DecodeEncodeEscaped(s: JsString)
    requires |s| > 0 && !IsUnreserved(s[0]) && Encode(s).Some?
    ensures Decode(Encode(s).value) == Some(s)
    decreases |s|, 0
  {
    EncodeEscaped(s);
    var cp := CodePointAt(s).value.0;
    var n := CodePointAt(s).value.1;
    var t := Encode(s[n..]).value;
    DecodeEncode(s[n..]);
    DecodeAfterEscapedScalar(cp, t, s[n..]);
    assert s == s[..n] + s[n..];
  }
}
