/**
 * The URL utilities of the server: a percent-decoder for URL components
 * (the percent-encoding of section 2.1 of RFC 3986, plus the form-encoding
 * rule that `+` stands for a space) and the splitter of query strings and
 * path parameters into key/value pairs.
 *
 * Characters are decoded as ISO-8859-1: every decoded byte becomes the
 * character with the same code.
 */
module URLUtils {
  import opened Wrappers
  import opened Bytes
  import opened Chars

  // ---------------------------------------------------------------------
  // Percent-decoding: the reference definition
  // ---------------------------------------------------------------------

  /** `HEXDIG` of RFC 3986: a decimal digit or a letter a-f in either case. */
  predicate IsHexDigit(c: char) {
    '0' <= c <= '9' || 'a' <= c <= 'f' || 'A' <= c <= 'F'
  }

  /** The value of one hexadecimal digit. */
  function HexValue(c: char): (v: nat)
    requires IsHexDigit(c)
    ensures v < 16
  {
    if '0' <= c <= '9' then c as int - '0' as int
    else if 'a' <= c <= 'f' then c as int - 'a' as int + 10
    else c as int - 'A' as int + 10
  }

  /** The octet that the escape `%xy` stands for. */
  function EscapedOctet(x: char, y: char): (b: byte)
    requires IsHexDigit(x) && IsHexDigit(y)
  {
    16 * HexValue(x) + HexValue(y)
  }

  /**
   * What one decoded character contributes to the output: with slash
   * decoding off, a decoded `/` or `\` is written back as `%2F` or `%5C`
   * so that it cannot be taken for a path separator.
   */
  function EscapeDecoded(c: char, decodeSlash: bool): string {
    if !decodeSlash && c == '/' then "%2F"
    else if !decodeSlash && c == '\\' then "%5C"
    else [c]
  }

  /** EscapeDecoded applied to each of the first `n` characters of `t`, in order. */
  function EscapePrefix(t: string, n: nat, decodeSlash: bool): string
    requires n <= |t|
  {
    if n == 0 then [] else EscapePrefix(t, n - 1, decodeSlash) + EscapeDecoded(t[n - 1], decodeSlash)
  }

  /** Puts `p` in front of a decoded value; a malformed input stays malformed. */
  function Prepend(p: string, r: Result<string>): Result<string> {
    if r.Ok? then Ok(p + r.value) else Malformed
  }

  /**
   * The decoding of s[i..], one character or escape at a time: `+` is a
   * space, `%xy` with two hexadecimal digits is the octet 16*x+y read as
   * ISO-8859-1, any other `%` makes the whole input malformed, and every
   * other character stands for itself.
   */
  function DecodedFrom(s: string, i: nat, decodeSlash: bool): Result<string>
    requires i <= |s|
    decreases |s| - i
  {
    if i == |s| then Ok([])
    else if s[i] == '+' then Prepend(" ", DecodedFrom(s, i + 1, decodeSlash))
    else if s[i] == '%' then
      if i + 2 < |s| && IsHexDigit(s[i + 1]) && IsHexDigit(s[i + 2]) then
        Prepend(EscapeDecoded(EscapedOctet(s[i + 1], s[i + 2]) as char, decodeSlash), DecodedFrom(s, i + 3, decodeSlash))
      else Malformed
    else Prepend([s[i]], DecodedFrom(s, i + 1, decodeSlash))
  }

  /** The decoding of all of `s`. */
  function Decoded(s: string, decodeSlash: bool): Result<string> {
    DecodedFrom(s, 0, decodeSlash)
  }

  /** Every `%` in `s` is followed by two hexadecimal digits. */
  ghost predicate WellFormedEscapes(s: string) {
    WellFormedFrom(s, 0)
  }

  /** Every `%` in s[i..] is followed by two hexadecimal digits. */
  ghost predicate WellFormedFrom(s: string, i: nat) {
    forall k :: i <= k < |s| && s[k] == '%' ==> k + 2 < |s| && IsHexDigit(s[k + 1]) && IsHexDigit(s[k + 2])
  }

  /**
   * A percent-encoder for the decoder above: a space becomes `+`, and `%`
   * and `+` are escaped; every other character is written as it is.
   */
  function Encode(t: string): string {
    if t == [] then [] else EncodeChar(t[0]) + Encode(t[1..])
  }

  /** The encoding of one character. */
  function EncodeChar(c: char): string {
    if c == ' ' then "+" else if c == '%' then "%25" else if c == '+' then "%2B" else [c]
  }

  // ---------------------------------------------------------------------
  // Percent-decoding: the decoder as the source runs it
  // ---------------------------------------------------------------------

  /** ISO-8859-1 decoding of a byte array prefix. */
  function Latin1(bs: seq<byte>): (t: string)
    ensures |t| == |bs|
  {
    seq(|bs|, k requires 0 <= k < |bs| => bs[k] as char)
  }

  /** ISO-8859-1 is one character per byte, with the byte's value as its code, so it loses nothing. */
  lemma Latin1Codes(bs: seq<byte>, cs: seq<byte>)
    ensures forall k :: 0 <= k < |bs| ==> Latin1(bs)[k] as int == bs[k]
    ensures Latin1(bs) == Latin1(cs) ==> bs == cs
  {
    if Latin1(bs) == Latin1(cs) {
      assert forall k :: 0 <= k < |bs| ==> bs[k] == Latin1(bs)[k] as int == Latin1(cs)[k] as int == cs[k];
    }
  }

  /**
   * Decodes `s`. Consecutive escapes are collected in a byte array, which
   * is allocated once, at the first `%`, with room for (length - index) / 3
   * bytes, and reused for every later run; each run is turned into
   * characters at once and, with slash decoding off, any decoded `/` or `\`
   * in it is escaped again.
   */
  method Decode(s: string, decodeSlash: bool) returns (r: Result<string>)
    ensures r == Decoded(s, decodeSlash)
  {
    var buffer: string := [];
    var needToChange := false;
    var numChars := |s|;
    var i := 0;
    var c: char;
    var bytes: array?<byte> := null;
    ghost var firstPercent := 0;
    assert Decoded(s, decodeSlash).Ok? ==> [] + Decoded(s, decodeSlash).value == Decoded(s, decodeSlash).value;
    while i < numChars
      invariant 0 <= i <= numChars
      invariant bytes != null ==> fresh(bytes)
      invariant Decoded(s, decodeSlash) == Prepend(buffer, DecodedFrom(s, i, decodeSlash))
      invariant !needToChange ==> buffer == s[..i]
      invariant bytes != null ==> firstPercent <= i && bytes.Length == (numChars - firstPercent) / 3
    {
      c := s[i];
      if c == '+' {
        Advance(Decoded(s, decodeSlash), buffer, " ", DecodedFrom(s, i, decodeSlash), DecodedFrom(s, i + 1, decodeSlash));
        buffer := buffer + [' '];
        i := i + 1;
        needToChange := true;
      } else if c == '%' {
        if bytes == null {
          // (numChars - i) / 3 bounds the number of bytes still to come
          bytes := new byte[(numChars - i) / 3];
          firstPercent := i;
        }
        assert (numChars - i) / 3 <= (numChars - firstPercent) / 3;
        var next, pos, mightRequireSlashEscape, ok := DecodeEscapes(s, i, bytes, decodeSlash);
        if !ok {
          ErrorPropagates(buffer, DecodedFrom(s, i, decodeSlash));
          return Malformed;
        }
        var decoded := Latin1(bytes[..pos]);
        var escaped;
        if !decodeSlash && mightRequireSlashEscape {
          escaped := Reescape(decoded);
        } else {
          PlainRun(bytes[..pos], decodeSlash);
          escaped := decoded;
        }
        Advance(Decoded(s, decodeSlash), buffer, escaped, DecodedFrom(s, i, decodeSlash), DecodedFrom(s, next, decodeSlash));
        buffer := buffer + escaped;
        i := next;
        needToChange := true;
      } else {
        Advance(Decoded(s, decodeSlash), buffer, [c], DecodedFrom(s, i, decodeSlash), DecodedFrom(s, i + 1, decodeSlash));
        buffer := buffer + [c];
        i := i + 1;
      }
    }
    assert DecodedFrom(s, i, decodeSlash) == Ok([]);
    assert buffer + [] == buffer;
    assert !needToChange ==> buffer == s;
    r := Ok(if needToChange then buffer else s);
  }

  /**
   * Collects the run of consecutive escapes that starts at `start` into
   * `bytes`, from index 0 on; `ok` is false when an escape in the run is
   * malformed or cut short.
   */
  method DecodeEscapes(s: string, start: nat, bytes: array<byte>, decodeSlash: bool)
    returns (next: nat, pos: nat, mightRequireSlashEscape: bool, ok: bool)
    requires start < |s| && s[start] == '%'
    requires (|s| - start) / 3 <= bytes.Length
    modifies bytes
    ensures pos <= bytes.Length && next == start + 3 * pos <= |s|
    ensures !ok ==> DecodedFrom(s, start, decodeSlash) == Malformed
    ensures ok ==> 0 < pos && (next == |s| || s[next] != '%')
    ensures ok ==> DecodedFrom(s, start, decodeSlash)
                   == Prepend(EscapePrefix(Latin1(bytes[..pos]), pos, decodeSlash), DecodedFrom(s, next, decodeSlash))
    ensures ok && !mightRequireSlashEscape ==> NoSeparator(bytes[..pos])
  {
    var numChars := |s|;
    var i := start;
    var c := s[i];
    mightRequireSlashEscape := false;
    pos := 0;
    assert numChars - start < 3 * ((numChars - start) / 3) + 3;
    while i + 2 < numChars && c == '%'
      invariant start <= i <= numChars && i == start + 3 * pos
      invariant i < numChars ==> c == s[i]
      invariant i >= numChars ==> c == '%'
      invariant numChars - start < 3 * bytes.Length + 3
      invariant IsEscapeRun(s, start, bytes[..pos])
      invariant !mightRequireSlashEscape ==> NoSeparator(bytes[..pos])
    {
      var v, hex := EscapeValue(s[i + 1], s[i + 2]);
      if !hex {
        RunOutcome(s, start, bytes[..pos], false, decodeSlash);
        return i, pos, mightRequireSlashEscape, false;
      }
      if v == '/' as int || v == '\\' as int {
        mightRequireSlashEscape := true;
      }
      ghost var before := bytes[..pos];
      bytes[pos] := v;
      assert bytes[..pos + 1] == before + [v];
      EscapeRunSnoc(s, start, before, v);
      if !mightRequireSlashEscape {
        NoSeparatorSnoc(before, v);
      }
      pos := pos + 1;
      i := i + 3;
      if i < numChars {
        c := s[i];
      }
    }
    // a trailing, incomplete escape such as "%x"
    if i < numChars && c == '%' {
      RunOutcome(s, start, bytes[..pos], false, decodeSlash);
      return i, pos, mightRequireSlashEscape, false;
    }
    RunOutcome(s, start, bytes[..pos], true, decodeSlash);
    return i, pos, mightRequireSlashEscape, true;
  }

  /** `bs` are the octets of the escapes read from `start` on, one for each three characters. */
  ghost predicate IsEscapeRun(s: string, start: nat, bs: seq<byte>)
    decreases |bs|
  {
    start + 3 * |bs| <= |s|
    && (bs != [] ==>
          var j := start + 3 * (|bs| - 1);
          IsEscapeRun(s, start, bs[..|bs| - 1])
          && s[j] == '%' && IsHexDigit(s[j + 1]) && IsHexDigit(s[j + 2])
          && bs[|bs| - 1] == EscapedOctet(s[j + 1], s[j + 2]))
  }

  /** A run of escapes decodes to its octets, each re-escaped if it is a separator. */
  lemma {:induction false} RunDecodes(s: string, start: nat, bs: seq<byte>, decodeSlash: bool)
    requires IsEscapeRun(s, start, bs)
    ensures DecodedFrom(s, start, decodeSlash)
            == Prepend(EscapePrefix(Latin1(bs), |bs|, decodeSlash), DecodedFrom(s, start + 3 * |bs|, decodeSlash))
    decreases |bs|
  {
    if bs == [] {
      PrependNothing(DecodedFrom(s, start, decodeSlash));
    } else {
      var n := |bs| - 1;
      var init := bs[..n];
      var j := start + 3 * n;
      EscapeRunParts(s, start, bs);
      RunDecodes(s, start, init, decodeSlash);
      var e := EscapeDecoded(bs[n] as char, decodeSlash);
      OneEscape(s, j, decodeSlash);
      Advance(DecodedFrom(s, start, decodeSlash), EscapePrefix(Latin1(init), n, decodeSlash), e,
              DecodedFrom(s, j, decodeSlash), DecodedFrom(s, j + 3, decodeSlash));
      Latin1Parts(bs);
      EscapePrefixStable(Latin1(init), Latin1(bs), n, decodeSlash);
      assert EscapePrefix(Latin1(bs), |bs|, decodeSlash) == EscapePrefix(Latin1(init), n, decodeSlash) + e;
      assert start + 3 * |bs| == j + 3;
    }
  }

  lemma PrependNothing(r: Result<string>)
    ensures Prepend([], r) == r
  {
    if r.Ok? {
      assert [] + r.value == r.value;
    }
  }

  /** Without separators, or with slash decoding on, a run is copied as decoded. */
  lemma PlainRun(bs: seq<byte>, decodeSlash: bool)
    requires decodeSlash || NoSeparator(bs)
    ensures EscapePrefix(Latin1(bs), |bs|, decodeSlash) == Latin1(bs)
  {
    EscapeAfterPlain(Latin1(bs), 0, |bs|, decodeSlash);
    assert Latin1(bs)[0..|bs|] == Latin1(bs);
  }

  /** What a maximal run of escapes means for the decoding. */
  lemma RunOutcome(s: string, start: nat, bs: seq<byte>, ok: bool, decodeSlash: bool)
    requires IsEscapeRun(s, start, bs)
    requires ok <==> start + 3 * |bs| == |s| || s[start + 3 * |bs|] != '%'
    requires !ok ==> !(start + 3 * |bs| + 2 < |s| && IsHexDigit(s[start + 3 * |bs| + 1]) && IsHexDigit(s[start + 3 * |bs| + 2]))
    ensures !ok ==> DecodedFrom(s, start, decodeSlash) == Malformed
    ensures ok ==> DecodedFrom(s, start, decodeSlash)
                   == Prepend(EscapePrefix(Latin1(bs), |bs|, decodeSlash), DecodedFrom(s, start + 3 * |bs|, decodeSlash))
  {
    RunDecodes(s, start, bs, decodeSlash);
    if !ok {
      BadEscape(s, start + 3 * |bs|, decodeSlash);
      ErrorPropagates(EscapePrefix(Latin1(bs), |bs|, decodeSlash), DecodedFrom(s, start + 3 * |bs|, decodeSlash));
    }
  }

  /** A run of escapes is a shorter run followed by one more escape. */
  lemma EscapeRunParts(s: string, start: nat, bs: seq<byte>)
    requires IsEscapeRun(s, start, bs) && bs != []
    ensures IsEscapeRun(s, start, bs[..|bs| - 1])
    ensures var j := start + 3 * (|bs| - 1);
            s[j] == '%' && IsHexDigit(s[j + 1]) && IsHexDigit(s[j + 2]) && bs[|bs| - 1] == EscapedOctet(s[j + 1], s[j + 2])
  {
  }

  lemma EscapeRunSnoc(s: string, start: nat, bs: seq<byte>, v: byte)
    requires IsEscapeRun(s, start, bs)
    requires var j := start + 3 * |bs|;
             j + 2 < |s| && s[j] == '%' && IsHexDigit(s[j + 1]) && IsHexDigit(s[j + 2]) && v == EscapedOctet(s[j + 1], s[j + 2])
    ensures IsEscapeRun(s, start, bs + [v])
  {
    assert (bs + [v])[..|bs|] == bs;
  }

  /** No octet of `bs` is a path separator, `/` or `\`. */
  predicate NoSeparator(bs: seq<byte>)
  {
    forall k :: 0 <= k < |bs| ==> bs[k] != '/' as int && bs[k] != '\\' as int
  }

  lemma NoSeparatorSnoc(bs: seq<byte>, v: byte)
    requires NoSeparator(bs) && v != '/' as int && v != '\\' as int
    ensures NoSeparator(bs + [v])
  {
  }

  /** A `%` not followed by two hexadecimal digits is malformed. */
  lemma BadEscape(s: string, j: nat, decodeSlash: bool)
    requires j < |s| && s[j] == '%'
    requires !(j + 2 < |s| && IsHexDigit(s[j + 1]) && IsHexDigit(s[j + 2]))
    ensures DecodedFrom(s, j, decodeSlash) == Malformed
  {
  }

  /** Decoding a well-formed escape. */
  lemma OneEscape(s: string, j: nat, decodeSlash: bool)
    requires j + 2 < |s| && s[j] == '%' && IsHexDigit(s[j + 1]) && IsHexDigit(s[j + 2])
    ensures DecodedFrom(s, j, decodeSlash)
            == Prepend(EscapeDecoded(EscapedOctet(s[j + 1], s[j + 2]) as char, decodeSlash), DecodedFrom(s, j + 3, decodeSlash))
  {
  }

  lemma Latin1Parts(bs: seq<byte>)
    requires bs != []
    ensures Latin1(bs[..|bs| - 1]) == Latin1(bs)[..|bs| - 1]
    ensures Latin1(bs)[|bs| - 1] == bs[|bs| - 1] as char
  {
  }

  /**
   * Re-escapes a decoded run: every `/` is written as `%2F` and every `\`
   * as `%5C`, and the stretches between them are copied whole.
   */
  method Reescape(decoded: string) returns (escaped: string)
    ensures escaped == EscapePrefix(decoded, |decoded|, false)
  {
    escaped := [];
    var decPos := 0;
    for j := 0 to |decoded|
      invariant 0 <= decPos <= j
      invariant escaped == EscapePrefix(decoded, decPos, false)
      invariant forall k :: decPos <= k < j ==> decoded[k] != '/' && decoded[k] != '\\'
    {
      var decChar := decoded[j];
      if decChar == '/' {
        EscapeAfterPlain(decoded, decPos, j, false);
        escaped := escaped + decoded[decPos..j] + "%2F";
        decPos := j + 1;
      } else if decChar == '\\' {
        EscapeAfterPlain(decoded, decPos, j, false);
        escaped := escaped + decoded[decPos..j] + "%5C";
        decPos := j + 1;
      }
    }
    EscapeAfterPlain(decoded, decPos, |decoded|, false);
    escaped := escaped + decoded[decPos..];
  }

  method EscapeValue(x: char, y: char) returns (v: int, hex: bool)
    ensures hex <==> IsHexDigit(x) && IsHexDigit(y)
    ensures hex ==> v == EscapedOctet(x, y)
  {
    var p1 := LowerAscii(x);
    var p2 := LowerAscii(y);
    v := 0;
    if '0' <= p1 <= '9' {
      v := (p1 as int - '0' as int) * 16;
    } else if 'a' <= p1 <= 'f' {
      v := (p1 as int - 'a' as int + 10) * 16;
    } else {
      return v, false;
    }
    if '0' <= p2 <= '9' {
      v := v + (p2 as int - '0' as int);
    } else if 'a' <= p2 <= 'f' {
      v := v + (p2 as int - 'a' as int + 10);
    } else {
      return v, false;
    }
    hex := true;
  }

  /** Moving a decoded piece from the rest of the input to the buffer. */
  lemma Advance(whole: Result<string>, buffer: string, piece: string, rest: Result<string>, after: Result<string>)
    requires whole == Prepend(buffer, rest) && rest == Prepend(piece, after)
    ensures whole == Prepend(buffer + piece, after)
  {
    PrependTwice(buffer, piece, after);
  }

  /** A malformed rest makes the whole input malformed. */
  lemma ErrorPropagates(p: string, r: Result<string>)
    requires r == Malformed
    ensures Prepend(p, r) == Malformed
  {
  }

  /** Prepending twice is prepending the concatenation. */
  lemma PrependTwice(a: string, b: string, r: Result<string>)
    ensures Prepend(a, Prepend(b, r)) == Prepend(a + b, r)
  {
    if r.Ok? {
      assert a + (b + r.value) == (a + b) + r.value;
    }
  }

  /** EscapePrefix(t, n, _) depends on the first `n` characters of `t` only. */
  lemma {:induction false} EscapePrefixStable(t: string, u: string, n: nat, decodeSlash: bool)
    requires n <= |t| && n <= |u| && t[..n] == u[..n]
    ensures EscapePrefix(t, n, decodeSlash) == EscapePrefix(u, n, decodeSlash)
  {
    if n > 0 {
      assert t[n - 1] == t[..n][n - 1] == u[..n][n - 1] == u[n - 1];
      assert t[..n - 1] == t[..n][..n - 1];
      assert u[..n - 1] == u[..n][..n - 1];
      EscapePrefixStable(t, u, n - 1, decodeSlash);
    }
  }

  /**
   * A stretch t[from..upto] that holds no slash (or any stretch, when slash
   * decoding is on) is copied as it is.
   */
  lemma {:induction false} EscapeAfterPlain(t: string, from: nat, upto: nat, decodeSlash: bool)
    requires from <= upto <= |t|
    requires decodeSlash || forall k :: from <= k < upto ==> t[k] != '/' && t[k] != '\\'
    ensures EscapePrefix(t, upto, decodeSlash) == EscapePrefix(t, from, decodeSlash) + t[from..upto]
    decreases upto
  {
    if upto > from {
      EscapeAfterPlain(t, from, upto - 1, decodeSlash);
      assert t[from..upto] == t[from..upto - 1] + [t[upto - 1]];
    }
  }

  // ---------------------------------------------------------------------
  // Percent-decoding: properties of the reference definition
  // ---------------------------------------------------------------------

  /** Input without `+` and `%` decodes to itself. */
  lemma DecodedUnchanged(s: string, decodeSlash: bool)
    requires '+' !in s && '%' !in s
    ensures Decoded(s, decodeSlash) == Ok(s)
  {
    PlainFrom(s, 0, decodeSlash);
  }

  lemma {:induction false} PlainFrom(s: string, i: nat, decodeSlash: bool)
    requires i <= |s|
    requires forall k :: i <= k < |s| ==> s[k] != '+' && s[k] != '%'
    ensures DecodedFrom(s, i, decodeSlash) == Ok(s[i..])
    decreases |s| - i
  {
    if i < |s| {
      PlainFrom(s, i + 1, decodeSlash);
      assert s[i..] == [s[i]] + s[i + 1..];
    }
  }

  /** Decoding fails exactly when some `%` is not followed by two hexadecimal digits. */
  lemma DecodedOkIff(s: string, decodeSlash: bool)
    ensures Decoded(s, decodeSlash).Ok? <==> WellFormedEscapes(s)
  {
    OkIffFrom(s, 0, decodeSlash);
  }

  lemma {:induction false} OkIffFrom(s: string, i: nat, decodeSlash: bool)
    requires i <= |s|
    ensures DecodedFrom(s, i, decodeSlash).Ok? <==> WellFormedFrom(s, i)
    decreases |s| - i
  {
    if i < |s| {
      if s[i] != '%' {
        OkIffFrom(s, i + 1, decodeSlash);
        assert WellFormedFrom(s, i) <==> WellFormedFrom(s, i + 1);
      } else if i + 2 < |s| && IsHexDigit(s[i + 1]) && IsHexDigit(s[i + 2]) {
        OkIffFrom(s, i + 3, decodeSlash);
        assert WellFormedFrom(s, i) <==> WellFormedFrom(s, i + 3);
      } else {
        assert !WellFormedFrom(s, i);
      }
    }
  }

  /** Decoding undoes Encode, whatever the slash setting. */
  lemma {:induction false} DecodeEncode(t: string, decodeSlash: bool)
    ensures Decoded(Encode(t), decodeSlash) == Ok(t)
    decreases |t|
  {
    if t != [] {
      var piece := EncodeChar(t[0]);
      var rest := Encode(t[1..]);
      DecodeEncode(t[1..], decodeSlash);
      EncodedHead(t[0], rest, decodeSlash);
      DecodedShift(piece, rest, 0, decodeSlash);
      assert t == [t[0]] + t[1..];
    }
  }

  /** The encoding of a character decodes back to that character, whatever follows it. */
  lemma EncodedHead(c: char, rest: string, decodeSlash: bool)
    ensures var s := EncodeChar(c) + rest;
            DecodedFrom(s, 0, decodeSlash) == Prepend([c], DecodedFrom(s, |EncodeChar(c)|, decodeSlash))
  {
    var s := EncodeChar(c) + rest;
    if c == '%' {
      assert s[0] == '%' && s[1] == '2' && s[2] == '5';
      assert EscapedOctet('2', '5') as char == '%';
    } else if c == '+' {
      assert s[0] == '%' && s[1] == '2' && s[2] == 'B';
      assert EscapedOctet('2', 'B') as char == '+';
    } else {
      assert s[0] == if c == ' ' then '+' else c;
    }
  }

  lemma {:induction false} DecodedShift(p: string, q: string, j: nat, decodeSlash: bool)
    requires j <= |q|
    ensures DecodedFrom(p + q, |p| + j, decodeSlash) == DecodedFrom(q, j, decodeSlash)
    decreases |q| - j
  {
    var s := p + q;
    var i := |p| + j;
    if j < |q| {
      assert s[i] == q[j];
      if q[j] == '%' {
        if j + 2 < |q| {
          assert s[i + 1] == q[j + 1] && s[i + 2] == q[j + 2];
          DecodedShift(p, q, j + 3, decodeSlash);
        }
      } else {
        DecodedShift(p, q, j + 1, decodeSlash);
      }
    }
  }

  /**
   * With slash decoding off, decoding neither adds nor removes a path
   * separator: literal `/` and `\` stay, escaped ones stay escaped.
   */
  lemma SeparatorsKept(s: string)
    requires Decoded(s, false).Ok?
    ensures multiset(Decoded(s, false).value)['/'] == multiset(s)['/']
    ensures multiset(Decoded(s, false).value)['\\'] == multiset(s)['\\']
  {
    SeparatorsFrom(s, 0);
    assert s[0..] == s;
  }

  lemma {:induction false} SeparatorsFrom(s: string, i: nat)
    requires i <= |s| && DecodedFrom(s, i, false).Ok?
    ensures multiset(DecodedFrom(s, i, false).value)['/'] == multiset(s[i..])['/']
    ensures multiset(DecodedFrom(s, i, false).value)['\\'] == multiset(s[i..])['\\']
    decreases |s| - i
  {
    if i < |s| {
      if s[i] == '%' {
        SeparatorsFrom(s, i + 3);
        EscapeStepSeparators(s, i, DecodedFrom(s, i + 3, false).value);
      } else {
        SeparatorsFrom(s, i + 1);
        PlainStepSeparators(s, i, DecodedFrom(s, i + 1, false).value);
      }
    }
  }

  /** SeparatorsFrom, one escape further back. */
  lemma EscapeStepSeparators(s: string, i: nat, r: string)
    requires i + 2 < |s| && s[i] == '%' && IsHexDigit(s[i + 1]) && IsHexDigit(s[i + 2])
    requires multiset(r)['/'] == multiset(s[i + 3..])['/'] && multiset(r)['\\'] == multiset(s[i + 3..])['\\']
    ensures var piece := EscapeDecoded(EscapedOctet(s[i + 1], s[i + 2]) as char, false);
            multiset(piece + r)['/'] == multiset(s[i..])['/'] && multiset(piece + r)['\\'] == multiset(s[i..])['\\']
  {
    var c := EscapedOctet(s[i + 1], s[i + 2]) as char;
    EscapeKeepsSeparators(c);
    EscapeReadSeparators(s[i + 1], s[i + 2]);
    assert s[i..] == ['%', s[i + 1], s[i + 2]] + s[i + 3..];
  }

  /** SeparatorsFrom, one plain character or `+` further back. */
  lemma PlainStepSeparators(s: string, i: nat, r: string)
    requires i < |s| && s[i] != '%'
    requires multiset(r)['/'] == multiset(s[i + 1..])['/'] && multiset(r)['\\'] == multiset(s[i + 1..])['\\']
    ensures var piece := if s[i] == '+' then " " else [s[i]];
            multiset(piece + r)['/'] == multiset(s[i..])['/'] && multiset(piece + r)['\\'] == multiset(s[i..])['\\']
  {
    PlainKeepsSeparators(s[i]);
    assert s[i..] == [s[i]] + s[i + 1..];
  }

  /** With slash decoding off, a decoded character contributes no path separator. */
  lemma EscapeKeepsSeparators(c: char)
    ensures multiset(EscapeDecoded(c, false))['/'] == 0
    ensures multiset(EscapeDecoded(c, false))['\\'] == 0
  {
    if c == '/' {
      assert EscapeDecoded(c, false) == ['%', '2', 'F'];
    } else if c == '\\' {
      assert EscapeDecoded(c, false) == ['%', '5', 'C'];
    } else {
      assert EscapeDecoded(c, false) == [c];
    }
  }

  /** The three characters of an escape hold no path separator. */
  lemma EscapeReadSeparators(x: char, y: char)
    requires IsHexDigit(x) && IsHexDigit(y)
    ensures multiset(['%', x, y])['/'] == 0 && multiset(['%', x, y])['\\'] == 0
  {
  }

  /** A character other than `%` decodes to as many path separators as it is. */
  lemma PlainKeepsSeparators(c: char)
    ensures var piece := if c == '+' then " " else [c];
            multiset(piece)['/'] == multiset([c])['/'] && multiset(piece)['\\'] == multiset([c])['\\']
  {
  }

  /** Worked examples: an escape, with hex digits in either case. */
  lemma HexExamples()
    ensures Decoded("%41", false) == Ok("A") && Decoded("%4a%4A", false) == Ok("JJ")
  {
    assert EscapedOctet('4', '1') as char == 'A';
    assert DecodedFrom("%41", 0, false) == Prepend("A", Ok([]));
    assert EscapedOctet('4', 'a') as char == 'J' && EscapedOctet('4', 'A') as char == 'J';
    assert DecodedFrom("%4a%4A", 3, false) == Prepend("J", Ok([]));
    assert "J" + [] == "J";
    assert DecodedFrom("%4a%4A", 3, false) == Ok("J");
    assert DecodedFrom("%4a%4A", 0, false) == Prepend("J", Ok("J"));
    assert "A" + [] == "A" && "J" + [] == "J" && "J" + "J" == "JJ";
  }

  /** Worked example: `+` is a space. */
  lemma PlusExample()
    ensures Decoded("a+b", false) == Ok("a b")
  {
    assert DecodedFrom("a+b", 2, false) == Prepend(['b'], Ok([]));
    assert ['b'] + [] == "b" && " " + "b" == " b" && "a" + " b" == "a b";
  }

  /** Worked examples: an escaped separator is kept escaped unless slash decoding is on. */
  lemma SlashExamples()
    ensures Decoded("%2F", false) == Ok("%2F") && Decoded("%2f", true) == Ok("/")
    ensures Decoded("a/b%5c", false) == Ok("a/b%5C")
  {
    assert EscapedOctet('2', 'F') as char == '/' && EscapedOctet('2', 'f') as char == '/';
    assert DecodedFrom("%2F", 0, false) == Prepend("%2F", Ok([]));
    assert DecodedFrom("%2f", 0, true) == Prepend("/", Ok([]));
    assert "%2F" + [] == "%2F" && "/" + [] == "/";
    assert EscapedOctet('5', 'c') as char == '\\';
    assert DecodedFrom("a/b%5c", 3, false) == Prepend("%5C", Ok([]));
    assert "%5C" + [] == "%5C" && "b" + "%5C" == "b%5C" && "/" + "b%5C" == "/b%5C" && "a" + "/b%5C" == "a/b%5C";
  }

  /** Worked examples of malformed input: a non-hex escape and escapes cut short. */
  lemma MalformedExamples()
    ensures Decoded("%zz", true) == Malformed
    ensures Decoded("%", true) == Malformed && Decoded("%4", true) == Malformed
    ensures Decoded("a%41%4", true) == Malformed
  {
  }

  // ---------------------------------------------------------------------
  // Query strings and path parameters: the reference definition
  // ---------------------------------------------------------------------

  /** A key/value pair as the parser hands it to the exchange. */
  datatype Param = Param(key: string, value: string)

  /** A segment read as `key=value` (split at its first `=`), or as a bare key. */
  datatype Field = Pair(key: string, value: string) | Bare(key: string)

  /** What the parser produced: the pairs handed on, and whether decoding failed (which stops it). */
  datatype Outcome = Outcome(params: seq<Param>, failed: bool)

  /** A prefix of the input cut at every `&`: the segments an `&` closed, and the one still open. */
  datatype Cut = Cut(done: seq<string>, current: string)

  /** The segments of s[..n]: an `&` closes the open segment, any other character extends it. */
  function CutAt(s: string, n: nat): Cut
    requires n <= |s|
  {
    if n == 0 then Cut([], [])
    else
      var c := CutAt(s, n - 1);
      if s[n - 1] == '&' then Cut(c.done + [c.current], []) else Cut(c.done, c.current + [s[n - 1]])
  }

  /** The segments that yield a pair: all of them but a last one that is empty. */
  function KeptSegments(s: string): seq<string> {
    var c := CutAt(s, |s|);
    if c.current == [] then c.done else c.done + [c.current]
  }

  /** A segment split at its first `=`; later `=` belong to the value. */
  function SplitField(seg: string): Field {
    if seg == [] then Bare([])
    else if seg[0] == '=' then Pair([], seg[1..])
    else
      match SplitField(seg[1..])
      case Pair(k, v) => Pair([seg[0]] + k, v)
      case Bare(_) => Bare(seg)
  }

  /**
   * The parser's own decode step: the URL decoder when decoding is asked
   * for, the text itself otherwise. `dec` stands for `URLDecoder.decode`
   * with the given charset; None is its IllegalArgumentException.
   */
  function DecodePart(x: string, doDecode: bool, dec: string -> Option<string>): (r: Option<string>)
    ensures !doDecode ==> r == Some(x)
    ensures doDecode ==> r == dec(x)
  {
    if doDecode then dec(x) else Some(x)
  }

  /** The pair a field yields: key and value decoded, or the key decoded and an empty value. */
  function DecodeField(f: Field, doDecode: bool, dec: string -> Option<string>): Option<Param> {
    match f
    case Pair(k, v) =>
      var key := DecodePart(k, doDecode, dec);
      var value := DecodePart(v, doDecode, dec);
      if key.Some? && value.Some? then Some(Param(key.value, value.value)) else None
    case Bare(k) =>
      var key := DecodePart(k, doDecode, dec);
      if key.Some? then Some(Param(key.value, [])) else None
  }

  /** The pairs of the segments, in order, up to the first one that fails to decode. */
  function ParseSegments(segs: seq<string>, doDecode: bool, dec: string -> Option<string>): Outcome {
    if segs == [] then Outcome([], false)
    else
      var prev := ParseSegments(segs[..|segs| - 1], doDecode, dec);
      if prev.failed then prev
      else
        var p := DecodeField(SplitField(segs[|segs| - 1]), doDecode, dec);
        if p.Some? then Outcome(prev.params + [p.value], false) else Outcome(prev.params, true)
  }

  /** What parsing the query string (or path parameter string) `s` hands to the exchange. */
  function QueryParams(s: string, doDecode: bool, dec: string -> Option<string>): Outcome {
    ParseSegments(KeptSegments(s), doDecode, dec)
  }

  /** All segments of s, the last one included even when it is empty. */
  function Segments(s: string): seq<string> {
    var c := CutAt(s, |s|);
    c.done + [c.current]
  }

  /** Segments put back together, with an `&` between neighbours. */
  function JoinAmp(segs: seq<string>): string
    requires segs != []
  {
    if |segs| == 1 then segs[0] else JoinAmp(segs[..|segs| - 1]) + "&" + segs[|segs| - 1]
  }

  /** A pair as read from its field, without decoding. */
  function RawParam(f: Field): Param {
    match f
    case Pair(k, v) => Param(k, v)
    case Bare(k) => Param(k, [])
  }

  // ---------------------------------------------------------------------
  // Query strings and path parameters: properties of the reference
  // ---------------------------------------------------------------------

  /** Cutting at every `&` loses nothing: the segments join back to the input, and none holds an `&`. */
  lemma SegmentsJoin(s: string)
    ensures JoinAmp(Segments(s)) == s
    ensures forall seg :: seg in Segments(s) ==> '&' !in seg
  {
    CutJoin(s, |s|);
    assert s[..|s|] == s;
  }

  lemma {:induction false} CutJoin(s: string, n: nat)
    requires n <= |s|
    ensures var c := CutAt(s, n); JoinAmp(c.done + [c.current]) == s[..n]
    ensures var c := CutAt(s, n); '&' !in c.current && forall seg :: seg in c.done ==> '&' !in seg
  {
    if n > 0 {
      var c := CutAt(s, n - 1);
      CutJoin(s, n - 1);
      assert s[..n] == s[..n - 1] + [s[n - 1]];
      if s[n - 1] == '&' {
        var segs := c.done + [c.current] + [[]];
        assert segs[..|segs| - 1] == c.done + [c.current];
      } else {
        JoinSnoc(c.done, c.current, s[n - 1]);
      }
    }
  }

  lemma JoinSnoc(done: seq<string>, cur: string, x: char)
    ensures JoinAmp(done + [cur + [x]]) == JoinAmp(done + [cur]) + [x]
  {
    var a := done + [cur + [x]];
    var b := done + [cur];
    if done != [] {
      assert a[..|a| - 1] == done == b[..|b| - 1];
    }
  }

  /** Only the empty input yields no segment at all; `"&"` already yields one (empty) pair. */
  lemma KeptSegmentsEmpty(s: string)
    ensures KeptSegments(s) == [] <==> s == []
  {
    CutJoin(s, |s|);
    assert s[..|s|] == s;
  }

  /** The kept segments are all segments but an empty last one. */
  lemma KeptSegmentsOf(s: string)
    ensures var segs := Segments(s);
            KeptSegments(s) == if segs[|segs| - 1] == [] then segs[..|segs| - 1] else segs
  {
    var segs := Segments(s);
    assert segs[..|segs| - 1] == CutAt(s, |s|).done;
  }

  /** A segment splits into (k, v) exactly when it is k, an `=` and v, with no `=` in k. */
  lemma {:induction false} SplitFieldPair(seg: string, k: string, v: string)
    ensures SplitField(seg) == Pair(k, v) <==> seg == k + "=" + v && '=' !in k
    decreases |seg|
  {
    if seg == [] {
      assert |k + "=" + v| > 0;
    } else if seg[0] == '=' {
      if k != [] {
        assert (k + "=" + v)[0] == k[0];
      } else {
        assert ("=" + v)[1..] == v;
      }
    } else if k == [] {
      assert ("=" + v)[0] == '=';
      if SplitField(seg[1..]).Pair? {
        assert SplitField(seg).key == [seg[0]] + SplitField(seg[1..]).key;
      }
    } else {
      SplitFieldPair(seg[1..], k[1..], v);
      assert k == [k[0]] + k[1..];
      assert (k + "=" + v)[1..] == k[1..] + "=" + v;
      assert (k + "=" + v)[0] == k[0];
      if SplitField(seg) == Pair(k, v) {
        assert SplitField(seg[1..]).Pair?;
      }
    }
  }

  /** A segment is a bare key exactly when it holds no `=`, and the key is then the whole segment. */
  lemma {:induction false} SplitFieldBare(seg: string)
    ensures SplitField(seg).Bare? <==> '=' !in seg
    ensures SplitField(seg).Bare? ==> SplitField(seg).key == seg
    decreases |seg|
  {
    if seg != [] && seg[0] != '=' {
      SplitFieldBare(seg[1..]);
      assert seg == [seg[0]] + seg[1..];
    }
  }

  /** Without decoding the parse never fails, and yields the raw pair of every kept segment, in order. */
  lemma RawPairs(s: string, dec: string -> Option<string>)
    ensures var kept := KeptSegments(s);
            QueryParams(s, false, dec)
            == Outcome(seq(|kept|, j requires 0 <= j < |kept| => RawParam(SplitField(kept[j]))), false)
  {
    var kept := KeptSegments(s);
    var raw := seq(|kept|, j requires 0 <= j < |kept| => RawParam(SplitField(kept[j])));
    AllDecodeOutcome(kept, raw, false, dec);
  }

  /** The pairs of a + "&" + b are those of a (every segment of it kept), then those of b, unless a fails. */
  lemma QueryParamsConcat(a: string, b: string, doDecode: bool, dec: string -> Option<string>)
    ensures var first := QueryParams(a + "&", doDecode, dec);
            var second := QueryParams(b, doDecode, dec);
            QueryParams(a + "&" + b, doDecode, dec)
            == if first.failed then first else Outcome(first.params + second.params, second.failed)
  {
    KeptConcat(a, b);
    var sa := Segments(a);
    var kb := KeptSegments(b);
    if ParseSegments(sa, doDecode, dec).failed {
      FailureSticks(sa, kb, doDecode, dec);
    } else {
      ParseSegmentsAppend(sa, kb, doDecode, dec);
    }
  }

  /** Every segment before an `&` is kept, even an empty one. */
  lemma KeptConcat(a: string, b: string)
    ensures KeptSegments(a + "&") == Segments(a)
    ensures KeptSegments(a + "&" + b) == Segments(a) + KeptSegments(b)
  {
    CutConcat(a, b, |b|);
    CutConcat(a, [], 0);
    assert a + "&" + [] == a + "&";
  }

  /** Cutting a + "&" + b[..m]: all segments of a, then those of b[..m]. */
  lemma {:induction false} CutConcat(a: string, b: string, m: nat)
    requires m <= |b|
    ensures CutAt(a + "&" + b, |a| + 1 + m) == Cut(Segments(a) + CutAt(b, m).done, CutAt(b, m).current)
  {
    var s := a + "&" + b;
    if m == 0 {
      CutPrefix(a, "&" + b, |a|);
      assert a + "&" + b == a + ("&" + b);
      assert s[|a|] == '&';
    } else {
      CutConcat(a, b, m - 1);
      assert s[|a| + m] == b[m - 1];
    }
  }

  /** The cut of a prefix does not depend on what follows it. */
  lemma {:induction false} CutPrefix(a: string, t: string, n: nat)
    requires n <= |a|
    ensures CutAt(a + t, n) == CutAt(a, n)
  {
    if n > 0 {
      CutPrefix(a, t, n - 1);
      assert (a + t)[n - 1] == a[n - 1];
    }
  }

  /** After segments that did not fail, more segments append their pairs. */
  lemma {:induction false} ParseSegmentsAppend(x: seq<string>, y: seq<string>, doDecode: bool, dec: string -> Option<string>)
    requires !ParseSegments(x, doDecode, dec).failed
    ensures var px := ParseSegments(x, doDecode, dec);
            var py := ParseSegments(y, doDecode, dec);
            ParseSegments(x + y, doDecode, dec) == Outcome(px.params + py.params, py.failed)
    decreases |y|
  {
    if y == [] {
      assert x + y == x;
    } else {
      var init := y[..|y| - 1];
      var last := y[|y| - 1];
      ParseSegmentsAppend(x, init, doDecode, dec);
      assert x + y == (x + init) + [last];
      assert y == init + [last];
      ParseSegmentsSnoc(x + init, last, doDecode, dec);
      ParseSegmentsSnoc(init, last, doDecode, dec);
      var px := ParseSegments(x, doDecode, dec).params;
      var pi := ParseSegments(init, doDecode, dec);
      var p := DecodeField(SplitField(last), doDecode, dec);
      if !pi.failed && p.Some? {
        AppendAssoc(px, pi.params, [p.value]);
      }
    }
  }

  /** A string without `&` is a single segment. */
  lemma PlainSegment(s: string)
    requires '&' !in s
    ensures Segments(s) == [s]
    ensures KeptSegments(s) == if s == [] then [] else [s]
  {
    PlainCut(s, |s|);
    assert s[..|s|] == s;
  }

  lemma {:induction false} PlainCut(s: string, n: nat)
    requires n <= |s| && '&' !in s
    ensures CutAt(s, n) == Cut([], s[..n])
  {
    if n > 0 {
      PlainCut(s, n - 1);
      assert s[..n] == s[..n - 1] + [s[n - 1]];
    }
  }

  /** A trailing `&` yields no further pair. */
  lemma TrailingAmpExample(dec: string -> Option<string>)
    ensures QueryParams("a&", false, dec) == Outcome([Param("a", "")], false)
  {
    PlainSegment("a");
    SplitFieldBare("a");
    KeptConcat("a", "");
    assert "a" + "&" == "a&";
  }

  /** Only the first `=` splits: later ones stay in the value. */
  lemma FirstEqualsExample(dec: string -> Option<string>)
    ensures QueryParams("a=b=c", false, dec) == Outcome([Param("a", "b=c")], false)
  {
    PlainSegment("a=b=c");
    SplitFieldPair("a=b=c", "a", "b=c");
  }

  /** Three segments, the last one without a value. */
  lemma ThreeSegmentsExample(dec: string -> Option<string>)
    ensures QueryParams("a=1&b=2&c", false, dec)
            == Outcome([Param("a", "1"), Param("b", "2"), Param("c", "")], false)
  {
    ThreeSegments();
    SplitFieldPair("a=1", "a", "1");
    SplitFieldPair("b=2", "b", "2");
    SplitFieldBare("c");
    RawPairs("a=1&b=2&c", dec);
  }

  lemma ThreeSegments()
    ensures KeptSegments("a=1&b=2&c") == ["a=1", "b=2", "c"]
  {
    TwoSegments();
    PlainSegment("a=1");
    KeptConcat("a=1", "b=2&c");
    assert "a=1" + "&" + "b=2&c" == "a=1&b=2&c";
  }

  lemma TwoSegments()
    ensures KeptSegments("b=2&c") == ["b=2", "c"]
  {
    PlainSegment("b=2");
    PlainSegment("c");
    KeptConcat("b=2", "c");
    assert "b=2" + "&" + "c" == "b=2&c";
  }

  /** An empty segment between two `&`s yields the pair ("", ""). */
  lemma EmptySegmentExample(dec: string -> Option<string>)
    ensures QueryParams("a&&b", false, dec)
            == Outcome([Param("a", ""), Param("", ""), Param("b", "")], false)
  {
    EmptySegment();
    SplitFieldBare("a");
    SplitFieldBare("");
    SplitFieldBare("b");
    RawPairs("a&&b", dec);
  }

  lemma EmptySegment()
    ensures KeptSegments("a&&b") == ["a", "", "b"]
  {
    PlainSegment("a");
    PlainSegment("");
    PlainSegment("b");
    KeptConcat("", "b");
    assert "" + "&" + "b" == "&b";
    KeptConcat("a", "&b");
    assert "a" + "&" + "&b" == "a&&b";
  }

  /** One more segment: its pair is appended, unless decoding failed before. */
  lemma ParseSegmentsSnoc(segs: seq<string>, seg: string, doDecode: bool, dec: string -> Option<string>)
    ensures var prev := ParseSegments(segs, doDecode, dec);
            var p := DecodeField(SplitField(seg), doDecode, dec);
            ParseSegments(segs + [seg], doDecode, dec)
            == if prev.failed then prev
               else if p.Some? then Outcome(prev.params + [p.value], false)
               else Outcome(prev.params, true)
  {
    assert (segs + [seg])[..|segs|] == segs;
  }

  /** After a failure, later segments change nothing. */
  lemma {:induction false} FailureSticks(segs: seq<string>, more: seq<string>, doDecode: bool, dec: string -> Option<string>)
    requires ParseSegments(segs, doDecode, dec).failed
    ensures ParseSegments(segs + more, doDecode, dec) == ParseSegments(segs, doDecode, dec)
    decreases |more|
  {
    if more == [] {
      assert segs + more == segs;
    } else {
      var init := more[..|more| - 1];
      FailureSticks(segs, init, doDecode, dec);
      assert segs + more == (segs + init) + [more[|more| - 1]];
      ParseSegmentsSnoc(segs + init, more[|more| - 1], doDecode, dec);
    }
  }

  // ---------------------------------------------------------------------
  // Query strings and path parameters: the parser as the source runs it
  // ---------------------------------------------------------------------

  /** Which list of the exchange a parser hands its pairs to. */
  datatype Sink = QuerySink | PathSink

  function Other(sink: Sink): Sink {
    if sink == QuerySink then PathSink else QuerySink
  }

  /** The parameter lists of an HTTP exchange, as the parsers fill them. */
  class Exchange {
    var queryParams: seq<Param>
    var pathParams: seq<Param>

    constructor ()
      ensures queryParams == [] && pathParams == []
    {
      queryParams := [];
      pathParams := [];
    }

    /** The list that `sink` names. */
    function Params(sink: Sink): seq<Param>
      reads this
    {
      if sink == QuerySink then queryParams else pathParams
    }

    /** The parser's `handle`: `addQueryParam` or `addPathParam`, by `sink`. */
    method Handle(sink: Sink, key: string, value: string)
      modifies this
      ensures Params(sink) == old(Params(sink)) + [Param(key, value)]
      ensures Params(Other(sink)) == old(Params(Other(sink)))
    {
      if sink == QuerySink {
        queryParams := queryParams + [Param(key, value)];
      } else {
        pathParams := pathParams + [Param(key, value)];
      }
    }
  }

  /**
   * The parser's two `handle` calls: the key (and the value, if the
   * segment has one) decoded, then handed to the exchange together.
   */
  method HandleField(ex: Exchange, sink: Sink, field: Field, doDecode: bool, dec: string -> Option<string>) returns (ok: bool)
    modifies ex
    ensures ok == DecodeField(field, doDecode, dec).Some?
    ensures ex.Params(sink) == old(ex.Params(sink)) + (if ok then [DecodeField(field, doDecode, dec).value] else [])
    ensures ex.Params(Other(sink)) == old(ex.Params(Other(sink)))
  {
    match field
    case Pair(k, v) =>
      var key := DecodePart(k, doDecode, dec);
      var value := DecodePart(v, doDecode, dec);
      if key.None? || value.None? {
        return false;
      }
      ex.Handle(sink, key.value, value.value);
      ok := true;
    case Bare(k) =>
      var key := DecodePart(k, doDecode, dec);
      if key.None? {
        return false;
      }
      ex.Handle(sink, key.value, []);
      ok := true;
  }

  /** `URLUtils.parseQueryString`: the pairs of `s` go to the query parameters. */
  method ParseQueryString(s: string, ex: Exchange, doDecode: bool, dec: string -> Option<string>) returns (failed: bool)
    modifies ex
    ensures ex.queryParams == old(ex.queryParams) + QueryParams(s, doDecode, dec).params
    ensures ex.pathParams == old(ex.pathParams)
    ensures failed == QueryParams(s, doDecode, dec).failed
  {
    failed := Parse(s, ex, QuerySink, doDecode, dec);
  }

  /** `URLUtils.parsePathParms`: the pairs of `s` go to the path parameters. */
  method ParsePathParms(s: string, ex: Exchange, doDecode: bool, dec: string -> Option<string>) returns (failed: bool)
    modifies ex
    ensures ex.pathParams == old(ex.pathParams) + QueryParams(s, doDecode, dec).params
    ensures ex.queryParams == old(ex.queryParams)
    ensures failed == QueryParams(s, doDecode, dec).failed
  {
    failed := Parse(s, ex, PathSink, doDecode, dec);
  }

  /**
   * Splits `s` into pairs and hands them to `ex`, in order. A segment is
   * handled when the `&` that closes it is read, or at the end; a decoding
   * failure stops the parse (`failed`), after the pairs before it were
   * handed on.
   */
  method Parse(s: string, ex: Exchange, sink: Sink, doDecode: bool, dec: string -> Option<string>) returns (failed: bool)
    modifies ex
    ensures ex.Params(sink) == old(ex.Params(sink)) + QueryParams(s, doDecode, dec).params
    ensures ex.Params(Other(sink)) == old(ex.Params(Other(sink)))
    ensures failed == QueryParams(s, doDecode, dec).failed
  {
    var stringStart := 0;
    var attrName: Option<string> := None;
    ghost var segStart := 0;
    ghost var fields: seq<Field> := [];
    ghost var params: seq<Param> := [];
    for i := 0 to |s|
      invariant ScanTo(s, i) == Scan(fields, segStart, stringStart, attrName)
      invariant AllDecode(fields, params, doDecode, dec)
      invariant ex.Params(sink) == old(ex.Params(sink)) + params
      invariant ex.Params(Other(sink)) == old(ex.Params(Other(sink)))
    {
      var c := s[i];
      if c == '=' && attrName.None? {
        attrName := Some(s[stringStart..i]);
        stringStart := i + 1;
      } else if c == '&' {
        var field := if attrName.Some? then Pair(attrName.value, s[stringStart..i]) else Bare(s[stringStart..i]);
        var ok := HandleField(ex, sink, field, doDecode, dec);
        if !ok {
          FailureStops(s, i + 1, fields, params, field, doDecode, dec);
          return true;
        }
        ghost var p := DecodeField(field, doDecode, dec).value;
        AllDecodeSnoc(fields, params, field, p, doDecode, dec);
        AppendAssoc(old(ex.Params(sink)), params, [p]);
        fields := fields + [field];
        params := params + [p];
        stringStart := i + 1;
        attrName := None;
        segStart := i + 1;
      }
    }
    ParseEnd(s, params, doDecode, dec);
    if attrName.Some? || |s| != stringStart {
      var field := if attrName.Some? then Pair(attrName.value, s[stringStart..]) else Bare(s[stringStart..]);
      var ok := HandleField(ex, sink, field, doDecode, dec);
      return !ok;
    }
    return false;
  }

  // ---------------------------------------------------------------------
  // Query strings and path parameters: why the parser meets its contract
  // ---------------------------------------------------------------------

  /** Where the parser stands after reading a prefix of its input. */
  datatype Scan = Scan(fields: seq<Field>, segStart: nat, stringStart: nat, attrName: Option<string>)

  /** The field of the segment being read, as the parser would hand it on at position n. */
  function Pending(s: string, st: Scan, n: nat): Field
    requires st.stringStart <= n <= |s|
  {
    if st.attrName.Some? then Pair(st.attrName.value, s[st.stringStart..n]) else Bare(s[st.stringStart..n])
  }

  /**
   * The parser's state after reading s[..n]: the fields of the segments an
   * `&` closed, where the current segment starts, and (`attrName`,
   * `stringStart`) its split at the first `=` so far.
   */
  ghost function ScanTo(s: string, n: nat): (st: Scan)
    requires n <= |s|
    ensures st.segStart <= st.stringStart <= n
    ensures st.attrName.None? ==> st.stringStart == st.segStart
  {
    if n == 0 then Scan([], 0, 0, None) else Step(s, ScanTo(s, n - 1), n - 1)
  }

  /** Reading s[i]: the first `=` of a segment starts its value, an `&` closes the segment. */
  function Step(s: string, st: Scan, i: nat): (st': Scan)
    requires i < |s| && st.segStart <= st.stringStart <= i
    requires st.attrName.None? ==> st.stringStart == st.segStart
    ensures st'.segStart <= st'.stringStart <= i + 1
    ensures st'.attrName.None? ==> st'.stringStart == st'.segStart
  {
    if s[i] == '=' && st.attrName.None? then st.(stringStart := i + 1, attrName := Some(s[st.stringStart..i]))
    else if s[i] == '&' then Scan(st.fields + [Pending(s, st, i)], i + 1, i + 1, None)
    else st
  }

  /** The fields of a sequence of segments. */
  function SplitAll(segs: seq<string>): (fields: seq<Field>)
    ensures |fields| == |segs|
  {
    seq(|segs|, j requires 0 <= j < |segs| => SplitField(segs[j]))
  }

  /** The parser's fields are the splits of the segments an `&` closed. */
  lemma {:induction false} ScanFields(s: string, n: nat)
    requires n <= |s|
    ensures ScanTo(s, n).fields == SplitAll(Done(s, n))
  {
    if n > 0 {
      var i := n - 1;
      ScanFields(s, i);
      SegmentsStep(s, i);
      if s[i] == '&' {
        ScanCurrent(s, i);
        SplitAllSnoc(Done(s, i), Current(s, i));
      }
    }
  }

  /** The parser's pending field is the split of the segment being read. */
  lemma {:induction false} ScanCurrent(s: string, n: nat)
    requires n <= |s|
    ensures var st := ScanTo(s, n);
            Current(s, n) == s[st.segStart..n] && SplitField(Current(s, n)) == Pending(s, st, n)
  {
    if n == 0 {
      assert SplitField([]) == Bare([]);
    } else {
      var i := n - 1;
      ScanCurrent(s, i);
      if s[i] == '&' {
        AmpersandStep(s, i, ScanTo(s, i));
      } else {
        CurrentStep(s, i, ScanTo(s, i), Current(s, i));
      }
    }
  }

  /** Reading an `&` leaves an empty segment, and an empty pending field. */
  lemma AmpersandStep(s: string, i: nat, st: Scan)
    requires i < |s| && s[i] == '&' && st.segStart <= st.stringStart <= i
    requires st.attrName.None? ==> st.stringStart == st.segStart
    ensures var st' := Step(s, st, i);
            [] == s[st'.segStart..i + 1] && SplitField([]) == Pending(s, st', i + 1)
  {
    assert SplitField([]) == Bare([]);
  }

  /** Reading a character other than `&` extends the segment and its split alike. */
  lemma CurrentStep(s: string, i: nat, st: Scan, cur: string)
    requires i < |s| && s[i] != '&' && st.segStart <= st.stringStart <= i
    requires st.attrName.None? ==> st.stringStart == st.segStart
    requires cur == s[st.segStart..i] && SplitField(cur) == Pending(s, st, i)
    ensures var st' := Step(s, st, i);
            cur + [s[i]] == s[st'.segStart..i + 1] && SplitField(cur + [s[i]]) == Pending(s, st', i + 1)
  {
    SliceSnoc(s, st.segStart, i);
    SliceSnoc(s, st.stringStart, i);
    FieldStep(cur, s[i], st.attrName, s[st.stringStart..i]);
  }

  lemma SliceSnoc(s: string, a: nat, i: nat)
    requires a <= i < |s|
    ensures s[a..i + 1] == s[a..i] + [s[i]]
  {
  }

  lemma SplitAllTake(segs: seq<string>, k: nat)
    requires k <= |segs|
    ensures SplitAll(segs[..k]) == SplitAll(segs)[..k]
  {
  }

  lemma SplitAllSnoc(segs: seq<string>, seg: string)
    ensures SplitAll(segs + [seg]) == SplitAll(segs) + [SplitField(seg)]
  {
  }

  /** At the end of the input, the pending field yields a pair unless its segment is empty. */
  lemma ParseEnd(s: string, params: seq<Param>, doDecode: bool, dec: string -> Option<string>)
    requires AllDecode(ScanTo(s, |s|).fields, params, doDecode, dec)
    ensures var st := ScanTo(s, |s|);
            var p := DecodeField(if st.attrName.Some? then Pair(st.attrName.value, s[st.stringStart..]) else Bare(s[st.stringStart..]), doDecode, dec);
            QueryParams(s, doDecode, dec)
            == if st.attrName.Some? || |s| != st.stringStart then Outcome(params + (if p.Some? then [p.value] else []), p.None?)
               else Outcome(params, false)
  {
    var cut := CutAt(s, |s|);
    ScanFields(s, |s|);
    ScanCurrent(s, |s|);
    EndOfInput(s, ScanTo(s, |s|), cut.current);
    if cut.current != [] {
      LastSegment(cut.done, cut.current, params, doDecode, dec);
    } else {
      AllDecodeOutcome(cut.done, params, doDecode, dec);
    }
  }

  /** At the end of the input, the pending field is there to hand on exactly when its segment is not empty. */
  lemma EndOfInput(s: string, st: Scan, cur: string)
    requires st.segStart <= st.stringStart <= |s| && (st.attrName.None? ==> st.stringStart == st.segStart)
    requires cur == s[st.segStart..|s|] && SplitField(cur) == Pending(s, st, |s|)
    ensures Pending(s, st, |s|) == if st.attrName.Some? then Pair(st.attrName.value, s[st.stringStart..]) else Bare(s[st.stringStart..])
    ensures st.attrName.Some? || |s| != st.stringStart <==> cur != []
  {
    assert s[st.stringStart..|s|] == s[st.stringStart..];
    assert SplitField([]) == Bare([]);
  }

  /** After segments that all decode, one more segment decides the outcome. */
  lemma LastSegment(segs: seq<string>, seg: string, params: seq<Param>, doDecode: bool, dec: string -> Option<string>)
    requires AllDecode(SplitAll(segs), params, doDecode, dec)
    ensures var p := DecodeField(SplitField(seg), doDecode, dec);
            ParseSegments(segs + [seg], doDecode, dec) == Outcome(params + (if p.Some? then [p.value] else []), p.None?)
  {
    AllDecodeOutcome(segs, params, doDecode, dec);
    ParseSegmentsSnoc(segs, seg, doDecode, dec);
  }

  /** Every field decoded, to the pair in the same position. */
  ghost predicate AllDecode(fields: seq<Field>, params: seq<Param>, doDecode: bool, dec: string -> Option<string>) {
    |params| == |fields| &&
    forall j :: 0 <= j < |fields| ==> DecodeField(fields[j], doDecode, dec) == Some(params[j])
  }

  lemma AllDecodeSnoc(fields: seq<Field>, params: seq<Param>, field: Field, p: Param, doDecode: bool, dec: string -> Option<string>)
    requires AllDecode(fields, params, doDecode, dec) && DecodeField(field, doDecode, dec) == Some(p)
    ensures AllDecode(fields + [field], params + [p], doDecode, dec)
  {
  }

  lemma AppendAssoc<T>(a: seq<T>, b: seq<T>, c: seq<T>)
    ensures a + b + c == a + (b + c)
  {
  }

  /** When every segment decodes, the parse yields their pairs and does not fail. */
  lemma {:induction false} AllDecodeOutcome(segs: seq<string>, params: seq<Param>, doDecode: bool, dec: string -> Option<string>)
    requires AllDecode(SplitAll(segs), params, doDecode, dec)
    ensures ParseSegments(segs, doDecode, dec) == Outcome(params, false)
    decreases |segs|
  {
    if segs != [] {
      var n := |segs| - 1;
      SplitAllTake(segs, n);
      AllDecodeOutcome(segs[..n], params[..n], doDecode, dec);
      assert params == params[..n] + [params[n]];
    }
  }

  /** A segment that fails to decode after segments that all did is the outcome of the whole parse. */
  lemma FailureStops(s: string, n: nat, fields: seq<Field>, params: seq<Param>, field: Field, doDecode: bool, dec: string -> Option<string>)
    requires n <= |s| && ScanTo(s, n).fields == fields + [field]
    requires AllDecode(fields, params, doDecode, dec) && DecodeField(field, doDecode, dec).None?
    ensures QueryParams(s, doDecode, dec) == Outcome(params, true)
  {
    ScanFields(s, n);
    var closed := Done(s, n);
    var k := |fields|;
    SplitAllTake(closed, k);
    assert SplitAll(closed)[k] == field;
    assert closed == closed[..k] + [closed[k]];
    LastSegment(closed[..k], closed[k], params, doDecode, dec);
    DonePrefix(s, n);
    var kept := KeptSegments(s);
    assert kept == closed + kept[|closed|..];
    FailureSticks(closed, kept[|closed|..], doDecode, dec);
  }

  /** One more character of a segment, as its split at the first `=` sees it. */
  lemma FieldStep(cur: string, c: char, attrName: Option<string>, value: string)
    requires SplitField(cur) == if attrName.Some? then Pair(attrName.value, value) else Bare(value)
    requires attrName.None? ==> value == cur
    ensures c == '=' && attrName.None? ==> SplitField(cur + [c]) == Pair(cur, [])
    ensures !(c == '=' && attrName.None?) ==>
              SplitField(cur + [c]) == if attrName.Some? then Pair(attrName.value, value + [c]) else Bare(value + [c])
  {
    SplitFieldSnoc(cur, c);
  }

  /** The segments of s[..n] already closed by an `&`. */
  function Done(s: string, n: nat): seq<string>
    requires n <= |s|
  {
    CutAt(s, n).done
  }

  /** The segment of s[..n] still being read. */
  function Current(s: string, n: nat): string
    requires n <= |s|
  {
    CutAt(s, n).current
  }

  /** Reading one more character: an `&` closes the current segment, any other extends it. */
  lemma SegmentsStep(s: string, n: nat)
    requires n < |s|
    ensures s[n] == '&' ==> Done(s, n + 1) == Done(s, n) + [Current(s, n)] && Current(s, n + 1) == []
    ensures s[n] != '&' ==> Done(s, n + 1) == Done(s, n) && Current(s, n + 1) == Current(s, n) + [s[n]]
  {
  }

  /** Reading one more character of a segment, as the split at its first `=` sees it. */
  lemma {:induction false} SplitFieldSnoc(cur: string, c: char)
    ensures SplitField(cur).Pair? ==> SplitField(cur + [c]) == Pair(SplitField(cur).key, SplitField(cur).value + [c])
    ensures SplitField(cur).Bare? && c == '=' ==> SplitField(cur + [c]) == Pair(cur, [])
    ensures SplitField(cur).Bare? && c != '=' ==> SplitField(cur + [c]) == Bare(cur + [c])
  {
    var t := cur + [c];
    if cur == [] {
      assert t[1..] == [];
    } else {
      assert t[0] == cur[0] && t[1..] == cur[1..] + [c];
      if cur[0] != '=' {
        SplitFieldSnoc(cur[1..], c);
        assert [cur[0]] + cur[1..] == cur;
      }
    }
  }

  /** The closed segments of a prefix come first among the segments that yield pairs. */
  lemma DonePrefix(s: string, n: nat)
    requires n <= |s|
    ensures Done(s, n) <= KeptSegments(s)
  {
    DoneGrows(s, n, |s|);
  }

  lemma {:induction false} DoneGrows(s: string, n: nat, m: nat)
    requires n <= m <= |s|
    ensures Done(s, n) <= Done(s, m)
    decreases m - n
  {
    if n < m {
      SegmentsStep(s, n);
      DoneGrows(s, n + 1, m);
    }
  }
}
