/**
 * The token listener of freq_est_listen.py: each read is scanned on its own
 * for runs of 16 hex digits, each token is normalised and split into two
 * signed 32-bit words, and every 0xFF byte of the read is reported as a
 * receive error. Nothing is carried from one read to the next.
 */
module FreqEstListen {
  import opened Wrappers
  import opened Bytes
  import opened Framing
  import opened Utf8
  import opened Hex
  import opened IqTail
  import opened Seqs

  /** `[0-9A-Fa-f]{16}` and `zfill(16)[:16]`: a token is 16 hex digits, 64 bits. */
  const TOKEN_LEN: nat := 16

  /** Each half of a token is one 32-bit word. */
  const WORD_LEN: nat := 8

  /** The `order` the listener passes by default. */
  const DEFAULT_ORDER: string := "IQ"

  // ---------------------------------------------------------------------
  // Normalisation: `strip`, one `0x`/`0X`, `_` and ` ` removed, `zfill`.
  // ---------------------------------------------------------------------

  /** `str.isspace` for one character: the characters `str.strip()` removes. */
  predicate IsSpace(c: char)
  {
    '\t' <= c <= '\r' || '\U{1C}' <= c <= ' ' || c == '\U{85}' || c == '\U{A0}' || c == '\U{1680}' ||
    '\U{2000}' <= c <= '\U{200A}' || c == '\U{2028}' || c == '\U{2029}' || c == '\U{202F}' ||
    c == '\U{205F}' || c == '\U{3000}'
  }

  /** How many whitespace characters `s` starts with. */
  function LeadingSpaces(s: string): (n: nat)
    ensures n <= |s|
  {
    if s != [] && IsSpace(s[0]) then 1 + LeadingSpaces(s[1..]) else 0
  }

  /** How many whitespace characters `s` ends with. */
  function TrailingSpaces(s: string): (n: nat)
    ensures n <= |s|
  {
    if s != [] && IsSpace(s[|s| - 1]) then 1 + TrailingSpaces(s[..|s| - 1]) else 0
  }

  /** The leading count covers whitespace only, and the character after it is not whitespace. */
  lemma {:induction false} LeadingSpacesSpec(s: string)
    ensures forall i :: 0 <= i < LeadingSpaces(s) ==> IsSpace(s[i])
    ensures LeadingSpaces(s) < |s| ==> !IsSpace(s[LeadingSpaces(s)])
  {
    if s != [] && IsSpace(s[0]) {
      var t := s[1..];
      LeadingSpacesSpec(t);
      forall i | 0 <= i < LeadingSpaces(s) ensures IsSpace(s[i]) {
        if i > 0 { assert s[i] == t[i - 1]; }
      }
      if LeadingSpaces(s) < |s| {
        assert s[LeadingSpaces(s)] == t[LeadingSpaces(t)];
      }
    }
  }

  /** The trailing count covers whitespace only, and the character before it is not whitespace. */
  lemma {:induction false} TrailingSpacesSpec(s: string)
    ensures forall i :: |s| - TrailingSpaces(s) <= i < |s| ==> IsSpace(s[i])
    ensures TrailingSpaces(s) < |s| ==> !IsSpace(s[|s| - TrailingSpaces(s) - 1])
  {
    if s != [] && IsSpace(s[|s| - 1]) {
      var t := s[..|s| - 1];
      TrailingSpacesSpec(t);
      forall i | |s| - TrailingSpaces(s) <= i < |s| ensures IsSpace(s[i]) {
        if i < |s| - 1 { assert s[i] == t[i]; }
      }
      if TrailingSpaces(s) < |s| {
        assert s[|s| - TrailingSpaces(s) - 1] == t[|t| - TrailingSpaces(t) - 1];
      }
    }
  }

  /** `str.lstrip()`: the suffix left once the leading whitespace is gone. */
  function LStrip(s: string): (r: string)
    ensures |r| <= |s| && r == s[|s| - |r|..]
  {
    s[LeadingSpaces(s)..]
  }

  /** `str.rstrip()`: the prefix left once the trailing whitespace is gone. */
  function RStrip(s: string): (r: string)
    ensures |r| <= |s| && r == s[..|r|]
  {
    s[..|s| - TrailingSpaces(s)]
  }

  /** `lstrip` removes only whitespace, and all of it. */
  lemma LStripSpec(s: string)
    ensures forall i :: 0 <= i < |s| - |LStrip(s)| ==> IsSpace(s[i])
    ensures LStrip(s) != [] ==> !IsSpace(LStrip(s)[0])
  {
    LeadingSpacesSpec(s);
  }

  /** `rstrip` removes only whitespace, and all of it. */
  lemma RStripSpec(s: string)
    ensures forall i :: |RStrip(s)| <= i < |s| ==> IsSpace(s[i])
    ensures RStrip(s) != [] ==> !IsSpace(RStrip(s)[|RStrip(s)| - 1])
  {
    TrailingSpacesSpec(s);
  }

  /** `str.strip()`. */
  function Strip(s: string): string
  {
    RStrip(LStrip(s))
  }

  /** Where the stripped text starts in the original. */
  function StripStart(s: string): nat
  {
    |s| - |LStrip(s)|
  }

  /**
   * Stripping keeps one contiguous piece of the text, removes only
   * whitespace around it, and leaves no whitespace at either end.
   */
  lemma StripSpec(s: string)
    ensures StripStart(s) + |Strip(s)| <= |s|
    ensures s[StripStart(s)..StripStart(s) + |Strip(s)|] == Strip(s)
    ensures forall i :: 0 <= i < StripStart(s) ==> IsSpace(s[i])
    ensures forall i :: StripStart(s) + |Strip(s)| <= i < |s| ==> IsSpace(s[i])
    ensures Strip(s) != [] ==> !IsSpace(Strip(s)[0]) && !IsSpace(Strip(s)[|Strip(s)| - 1])
  {
    LStripSpec(s);
    StripSlice(s);
    StripTrailing(s);
    StripEdges(s);
  }

  lemma StripSlice(s: string)
    ensures StripStart(s) + |Strip(s)| <= |s|
    ensures s[StripStart(s)..StripStart(s) + |Strip(s)|] == Strip(s)
  {
    var l, a := LStrip(s), StripStart(s);
    var r := RStrip(l);
    assert l == s[a..] && r == l[..|r|];
    assert s[a..a + |r|] == l[..|r|];
  }

  lemma StripTrailing(s: string)
    ensures forall i :: StripStart(s) + |Strip(s)| <= i < |s| ==> IsSpace(s[i])
  {
    var l, a := LStrip(s), StripStart(s);
    var r := RStrip(l);
    RStripSpec(l);
    assert l == s[a..];
    forall i | a + |r| <= i < |s| ensures IsSpace(s[i]) {
      assert s[i] == l[i - a];
    }
  }

  lemma StripEdges(s: string)
    ensures Strip(s) != [] ==> !IsSpace(Strip(s)[0]) && !IsSpace(Strip(s)[|Strip(s)| - 1])
  {
    var l := LStrip(s);
    var r := RStrip(l);
    LStripSpec(s);
    RStripSpec(l);
    if r != [] {
      assert r == l[..|r|];
      assert r[0] == l[0];
    }
  }

  lemma {:induction false} LStripPadded(pre: string, u: string)
    requires forall i :: 0 <= i < |pre| ==> IsSpace(pre[i])
    requires u != [] && !IsSpace(u[0])
    ensures LStrip(pre + u) == u
  {
    if pre == [] {
      assert pre + u == u;
    } else {
      assert (pre + u)[1..] == pre[1..] + u;
      LStripPadded(pre[1..], u);
    }
  }

  lemma {:induction false} RStripPadded(u: string, post: string)
    requires forall i :: 0 <= i < |post| ==> IsSpace(post[i])
    requires u != [] && !IsSpace(u[|u| - 1])
    ensures RStrip(u + post) == u
  {
    if post == [] {
      assert u + post == u;
    } else {
      var init := post[..|post| - 1];
      assert (u + post)[..|u + post| - 1] == u + init;
      RStripPadded(u, init);
    }
  }

  /** Text between whitespace padding strips back to itself. */
  lemma StripPadded(pre: string, t: string, post: string)
    requires forall i :: 0 <= i < |pre| ==> IsSpace(pre[i])
    requires forall i :: 0 <= i < |post| ==> IsSpace(post[i])
    requires t != [] && !IsSpace(t[0]) && !IsSpace(t[|t| - 1])
    ensures Strip(pre + t + post) == t
  {
    assert pre + t + post == pre + (t + post);
    LStripPadded(pre, t + post);
    RStripPadded(t, post);
  }

  /** `str.strip()` is idempotent. */
  lemma StripIdempotent(s: string)
    ensures Strip(Strip(s)) == Strip(s)
  {
    StripSpec(s);
    var r := Strip(s);
    if r != [] {
      var e: string := [];
      assert e + r + e == r;
      StripPadded(e, r, e);
    }
  }

  /** `h[2:]` when `h.startswith('0x') or h.startswith('0X')`. */
  function DropHexPrefix(h: string): (r: string)
    ensures |h| >= 2 && h[..2] in {"0x", "0X"} ==> r == h[2..]
    ensures !(|h| >= 2 && h[..2] in {"0x", "0X"}) ==> r == h
  {
    if |h| >= 2 && h[0] == '0' && (h[1] == 'x' || h[1] == 'X') then
      assert h[..2] == [h[0], h[1]];
      h[2..]
    else h
  }

  /** `s.replace(c, '')`. */
  function Remove(s: string, c: char): (r: string)
    ensures c !in r && |r| <= |s|
    ensures forall x :: x != c ==> multiset(r)[x] == multiset(s)[x]
  {
    if s == [] then []
    else
      var rest := Remove(s[1..], c);
      assert s == [s[0]] + s[1..];
      (if s[0] == c then [] else [s[0]]) + rest
  }

  /** Removing a character works piece by piece, and leaves text without it as it is. */
  lemma {:induction false} RemoveAppend(a: string, b: string, c: char)
    ensures Remove(a + b, c) == Remove(a, c) + Remove(b, c)
    ensures c !in a ==> Remove(a, c) == a
  {
    if a != [] {
      assert (a + b)[1..] == a[1..] + b;
      RemoveAppend(a[1..], b, c);
      assert a == [a[0]] + a[1..];
    } else {
      assert a + b == b;
    }
  }

  /** `k` ASCII '0' characters. */
  function Zeros(k: nat): (z: string)
    ensures |z| == k && forall i :: 0 <= i < k ==> z[i] == '0'
  {
    if k == 0 then [] else Zeros(k - 1) + "0"
  }

  /** Whether `zfill` keeps a leading sign in front of the padding. */
  predicate Signed(s: string)
  {
    s != [] && (s[0] == '+' || s[0] == '-')
  }

  /**
   * `s.zfill(width)`: left-padded with '0' to `width` characters, after a
   * leading sign if there is one; text already that long is unchanged.
   */
  function Zfill(s: string, width: nat): (r: string)
    ensures |r| == if |s| >= width then |s| else width
    ensures |s| >= width ==> r == s
    ensures !Signed(s) ==> r[|r| - |s|..] == s && forall i :: 0 <= i < |r| - |s| ==> r[i] == '0'
    ensures Signed(s) ==> r[0] == s[0] && r[|r| - |s| + 1..] == s[1..] &&
                           forall i :: 1 <= i <= |r| - |s| ==> r[i] == '0'
  {
    if |s| >= width then s
    else if Signed(s) then [s[0]] + Zeros(width - |s|) + s[1..]
    else Zeros(width - |s|) + s
  }

  /** `h.zfill(16)[:16]`: exactly 16 characters, padded on the left or cut on the right. */
  function Pad16(s: string): (r: string)
    ensures |r| == TOKEN_LEN
    ensures |s| >= TOKEN_LEN ==> r == s[..TOKEN_LEN]
    ensures |s| < TOKEN_LEN && !Signed(s) ==> r == Zeros(TOKEN_LEN - |s|) + s
  {
    var z := Zfill(s, TOKEN_LEN);
    assert |s| < TOKEN_LEN && !Signed(s) ==> z == z[..TOKEN_LEN - |s|] + z[TOKEN_LEN - |s|..];
    assert |s| < TOKEN_LEN && !Signed(s) ==> z[..TOKEN_LEN - |s|] == Zeros(TOKEN_LEN - |s|);
    z[..TOKEN_LEN]
  }

  /** Leading zeros do not change the value of a hex numeral. */
  lemma {:induction false} ZerosValue(k: nat, s: string)
    requires AllHex(s)
    ensures AllHex(Zeros(k) + s)
    ensures HexValue(Zeros(k) + s) == HexValue(s)
  {
    if k == 0 {
      assert Zeros(k) + s == s;
    } else {
      var t := Zeros(k - 1) + s;
      ZerosValue(k - 1, s);
      var z := Zeros(k) + s;
      assert z == "0" + t by {
        ZerosCons(k);
      }
      assert AllHex(z) by {
        forall i | 0 <= i < |z| ensures IsHexDigit(z[i]) {
          if i > 0 { assert z[i] == t[i - 1]; }
        }
      }
      assert z[1..] == t;
      assert DigitValue(z[0]) == 0;
      assert HexValue(z) == DigitValue(z[0]) * Pow(16, |z| - 1) + HexValue(t);
    }
  }

  lemma ZerosCons(k: nat)
    requires k > 0
    ensures Zeros(k) == "0" + Zeros(k - 1)
  {
    var z := Zeros(k);
    assert forall i :: 0 <= i < k ==> z[i] == ("0" + Zeros(k - 1))[i];
  }

  /** Everything `hex64_to_iq_freq` does to its text before splitting it. */
  function Cleaned(hex64: string): string
  {
    Remove(Remove(DropHexPrefix(Strip(hex64)), '_'), ' ')
  }

  function Normalise(hex64: string): (h: string)
    ensures |h| == TOKEN_LEN
  {
    Pad16(Cleaned(hex64))
  }

  /** Hex digits hold neither of the characters `replace` removes. */
  lemma RemoveNoop(tok: string)
    requires AllHex(tok)
    ensures Remove(Remove(tok, '_'), ' ') == tok
  {
    assert '_' !in tok && ' ' !in tok by {
      forall i | 0 <= i < |tok| ensures tok[i] != '_' && tok[i] != ' ' {
        assert IsHexDigit(tok[i]);
      }
    }
    RemoveAppend(tok, [], '_');
    RemoveAppend(tok, [], ' ');
  }

  /** Only a literal `0x`/`0X` is taken off: a hex digit never follows a leading '0' as an 'x'. */
  lemma DropPrefixOnce(prefix: string, tok: string)
    requires prefix in {"", "0x", "0X"}
    requires tok != [] && AllHex(tok)
    ensures DropHexPrefix(prefix + tok) == tok
  {
    var t := prefix + tok;
    if prefix == "" {
      assert t == tok;
      if |tok| >= 2 {
        assert IsHexDigit(tok[1]);
        assert tok[..2] != "0x" && tok[..2] != "0X" by { assert tok[..2][1] == tok[1]; }
      }
    } else {
      assert t[..2] == prefix && t[2..] == tok;
    }
  }

  /** Whitespace around a (possibly `0x`-prefixed) run of hex digits is all the cleaning removes. */
  lemma CleanedToken(pre: string, prefix: string, tok: string, post: string)
    requires forall i :: 0 <= i < |pre| ==> IsSpace(pre[i])
    requires forall i :: 0 <= i < |post| ==> IsSpace(post[i])
    requires prefix in {"", "0x", "0X"}
    requires tok != [] && AllHex(tok)
    ensures Cleaned(pre + prefix + tok + post) == tok
  {
    var t := prefix + tok;
    assert t[0] == if prefix == "" then tok[0] else '0';
    assert t[|t| - 1] == tok[|tok| - 1];
    assert pre + prefix + tok + post == pre + t + post;
    StripPadded(pre, t, post);
    DropPrefixOnce(prefix, tok);
    RemoveNoop(tok);
  }

  /**
   * A token framed by whitespace, with or without a `0x`, normalises to
   * itself; a shorter numeral is padded to the same value.
   */
  lemma NormaliseCanonical(pre: string, prefix: string, tok: string, post: string)
    requires forall i :: 0 <= i < |pre| ==> IsSpace(pre[i])
    requires forall i :: 0 <= i < |post| ==> IsSpace(post[i])
    requires prefix in {"", "0x", "0X"}
    requires 0 < |tok| <= TOKEN_LEN && AllHex(tok)
    ensures AllHex(Normalise(pre + prefix + tok + post))
    ensures HexValue(Normalise(pre + prefix + tok + post)) == HexValue(tok)
    ensures |tok| == TOKEN_LEN ==> Normalise(pre + prefix + tok + post) == tok
  {
    PadValue(tok);
    CleanedToken(pre, prefix, tok, post);
  }

  /** Padding a numeral of up to 16 digits keeps its value; a full token is left as it is. */
  lemma PadValue(tok: string)
    requires 0 < |tok| <= TOKEN_LEN && AllHex(tok)
    ensures AllHex(Pad16(tok)) && HexValue(Pad16(tok)) == HexValue(tok)
    ensures |tok| == TOKEN_LEN ==> Pad16(tok) == tok
  {
    if |tok| < TOKEN_LEN {
      assert !Signed(tok) by { assert IsHexDigit(tok[0]); }
      ZerosValue(TOKEN_LEN - |tok|, tok);
    } else {
      assert tok[..TOKEN_LEN] == tok;
    }
  }

  // ---------------------------------------------------------------------
  // Decoding the two halves.
  // ---------------------------------------------------------------------

  lemma SmallPow(k: nat)
    requires k <= 4
    ensures Pow(256, k) / 2 <= TWO_31
  {
    assert Pow(256, 1) == 256;
    assert Pow(256, 2) == 256 * 256;
    assert Pow(256, 3) == 256 * 256 * 256;
    assert Pow(256, 4) == 256 * 256 * 256 * 256;
  }

  /**
   * `_s32_from_hex`: `bytes.fromhex` then a signed big-endian reading.
   * `None` is the `ValueError` of `bytes.fromhex`.
   */
  function S32FromHex(h8: string): (r: Option<int>)
    requires |h8| == WORD_LEN
    ensures r.Some? <==> FromHex(h8).Some?
    ensures r.Some? ==> IsInt32(r.value)
  {
    match FromHex(h8)
    case None => None
    case Some(b) =>
      SmallPow(|b|);
      Some(FromBytesSigned(b))
  }

  /**
   * On eight hex digits the half is the unsigned 32-bit value, minus 2^32
   * exactly when the top bit is set.
   */
  lemma S32FromDigits(h8: string)
    requires |h8| == WORD_LEN && AllHex(h8)
    ensures S32FromHex(h8) == Some(Word32(h8))
    ensures S32FromHex(h8).value % TWO_32 == HexValue(h8)
    ensures S32FromHex(h8).value < 0 <==> HexValue(h8) >= TWO_31
  {
    FromHexDigits(h8);
    FourBytesSigned(FromHex(h8).value);
  }

  /** `order.upper() == 'IQ'`; the dotless i (U+0131) also upper-cases to 'I'. */
  predicate OrderIsIQ(order: string)
  {
    |order| == 2 && (order[0] == 'I' || order[0] == 'i' || order[0] == '\U{131}') && (order[1] == 'Q' || order[1] == 'q')
  }

  /** Two halves decoded in turn; the first `ValueError` ends the call. */
  function Words2(h: string): (r: Option<(int, int)>)
    requires |h| == TOKEN_LEN
    ensures r.Some? ==> IsInt32(r.value.0) && IsInt32(r.value.1)
    ensures r.Some? <==> FromHex(h[..WORD_LEN]).Some? && FromHex(h[WORD_LEN..]).Some?
  {
    match S32FromHex(h[..WORD_LEN])
    case None => None
    case Some(w1) =>
      match S32FromHex(h[WORD_LEN..])
      case None => None
      case Some(w2) => Some((w1, w2))
  }

  /**
   * `hex64_to_iq_freq` up to the phase: the normalised text split into two
   * words, the first being I when the order is IQ and Q otherwise.
   */
  function HexToIQ(hex64: string, order: string): (r: Option<IQ>)
    ensures r.Some? ==> IsInt32(r.value.i) && IsInt32(r.value.q)
  {
    match Words2(Normalise(hex64))
    case None => None
    case Some(w) => if OrderIsIQ(order) then Some(IQ(w.0, w.1)) else Some(IQ(w.1, w.0))
  }

  /** Any order other than IQ swaps the two words. */
  lemma OrderSwaps(hex64: string, iq: string, other: string)
    requires OrderIsIQ(iq) && !OrderIsIQ(other)
    ensures HexToIQ(hex64, iq).Some? <==> HexToIQ(hex64, other).Some?
    ensures HexToIQ(hex64, iq).Some? ==>
              HexToIQ(hex64, other).value == IQ(HexToIQ(hex64, iq).value.q, HexToIQ(hex64, iq).value.i)
  {
  }

  /** A character that is neither a hex digit nor ASCII whitespace anywhere in the normalised text is an error. */
  lemma NonHexRejected(hex64: string, order: string, k: nat)
    requires k < TOKEN_LEN
    requires !IsHexDigit(Normalise(hex64)[k]) && !IsAsciiSpace(Normalise(hex64)[k])
    ensures HexToIQ(hex64, order).None?
  {
    Words2Rejects(Normalise(hex64), k);
  }

  lemma Words2Rejects(h: string, k: nat)
    requires |h| == TOKEN_LEN && k < TOKEN_LEN
    requires !IsHexDigit(h[k]) && !IsAsciiSpace(h[k])
    ensures Words2(h).None?
  {
    if k < WORD_LEN {
      assert h[..WORD_LEN][k] == h[k];
      FromHexRejects(h[..WORD_LEN], k);
    } else {
      assert h[WORD_LEN..][k - WORD_LEN] == h[k];
      FromHexRejects(h[WORD_LEN..], k - WORD_LEN);
    }
  }

  /** Two halves of hex digits are the two signed words they spell. */
  lemma Words2Digits(h: string)
    requires |h| == TOKEN_LEN && AllHex(h)
    ensures Words2(h) == Some((Word32(h[..WORD_LEN]), Word32(h[WORD_LEN..])))
  {
    var h1, h2 := h[..WORD_LEN], h[WORD_LEN..];
    assert AllHex(h1) && AllHex(h2) by {
      forall k | 0 <= k < WORD_LEN ensures IsHexDigit(h1[k]) && IsHexDigit(h2[k]) {
        assert h1[k] == h[k] && h2[k] == h[k + WORD_LEN];
      }
    }
    S32FromDigits(h1);
    S32FromDigits(h2);
  }

  lemma NormaliseToken(tok: string)
    requires |tok| == TOKEN_LEN && AllHex(tok)
    ensures Normalise(tok) == tok
  {
    var e: string := [];
    assert e + e + tok + e == tok;
    CleanedToken(e, e, tok, e);
    assert Pad16(tok) == tok by {
      assert tok[..TOKEN_LEN] == tok;
    }
  }

  /** On a 16-digit token the lenient decode agrees with the strict tail decode. */
  lemma AgreesWithTail(tok: string)
    requires |tok| == TOKEN_LEN && AllHex(tok)
    ensures Normalise(tok) == tok
    ensures DecodeTail(tok).Ok?
    ensures HexToIQ(tok, DEFAULT_ORDER) == Some(DecodeTail(tok).value)
  {
    NormaliseToken(tok);
    Words2Digits(tok);
    assert Tail(tok) == tok;
    DecodeTailValue(tok);
  }

  lemma AllHexAppend(a: string, b: string)
    requires AllHex(a) && AllHex(b)
    ensures AllHex(a + b)
  {
    forall k | 0 <= k < |a + b| ensures IsHexDigit((a + b)[k]) {
      if k < |a| { assert (a + b)[k] == a[k]; } else { assert (a + b)[k] == b[k - |a|]; }
    }
  }

  /** Encoding two words as 16 hex digits and decoding them gives them back, in either order. */
  lemma HexRoundTrip(i: int, q: int, order: string)
    requires IsInt32(i) && IsInt32(q)
    ensures HexToIQ(Int32ToHex(i) + Int32ToHex(q), order) == if OrderIsIQ(order) then Some(IQ(i, q)) else Some(IQ(q, i))
  {
    var tok := Int32ToHex(i) + Int32ToHex(q);
    var e: string := [];
    assert e + Int32ToHex(i) + Int32ToHex(q) == tok;
    AllHexAppend(Int32ToHex(i), Int32ToHex(q));
    AgreesWithTail(tok);
    DecodeEncodedTail(e, i, q);
    if !OrderIsIQ(order) {
      OrderSwaps(tok, DEFAULT_ORDER, order);
    }
  }

  // ---------------------------------------------------------------------
  // The token scanner and the per-read loop.
  // ---------------------------------------------------------------------

  /**
   * `_hex16_re.finditer(s)`: the leftmost run of 16 hex digits, then the
   * scan resumes right after it, so matches never overlap.
   */
  function Scan(s: string): (tokens: seq<string>)
    ensures forall k :: 0 <= k < |tokens| ==> |tokens[k]| == TOKEN_LEN && AllHex(tokens[k])
    ensures TOKEN_LEN * |tokens| <= |s|
    decreases |s|
  {
    if |s| < TOKEN_LEN then []
    else if AllHex(s[..TOKEN_LEN]) then [s[..TOKEN_LEN]] + Scan(s[TOKEN_LEN..])
    else Scan(s[1..])
  }

  /** A run of hex digits is cut into as many whole tokens as fit. */
  lemma {:induction false} ScanAllHex(s: string)
    requires AllHex(s)
    ensures |Scan(s)| == |s| / TOKEN_LEN
    decreases |s|
  {
    if |s| >= TOKEN_LEN {
      var w := s[..TOKEN_LEN];
      assert AllHex(w) by {
        forall k | 0 <= k < TOKEN_LEN ensures IsHexDigit(w[k]) { assert w[k] == s[k]; }
      }
      var rest := s[TOKEN_LEN..];
      assert AllHex(rest) by {
        forall k | 0 <= k < |rest| ensures IsHexDigit(rest[k]) { assert rest[k] == s[k + TOKEN_LEN]; }
      }
      ScanAllHex(rest);
    }
  }

  /** No token spans a character that is not a hex digit: the text on each side is scanned on its own. */
  lemma {:induction false} ScanSeparated(a: string, c: char, b: string)
    requires !IsHexDigit(c)
    ensures Scan(a + [c] + b) == Scan(a) + Scan(b)
    decreases |a|
  {
    var s := a + [c] + b;
    if |s| < TOKEN_LEN {
      assert Scan(b) == [];
    } else if |a| >= TOKEN_LEN {
      assert s[..TOKEN_LEN] == a[..TOKEN_LEN];
      if AllHex(a[..TOKEN_LEN]) {
        assert s[TOKEN_LEN..] == a[TOKEN_LEN..] + [c] + b;
        ScanSeparated(a[TOKEN_LEN..], c, b);
      } else {
        assert s[1..] == a[1..] + [c] + b;
        ScanSeparated(a[1..], c, b);
      }
    } else {
      assert s[..TOKEN_LEN][|a|] == c;
      assert !AllHex(s[..TOKEN_LEN]);
      if a == [] {
        assert s[1..] == b;
      } else {
        assert s[1..] == a[1..] + [c] + b;
        ScanSeparated(a[1..], c, b);
      }
    }
  }

  /** A maximal run of k hex digits yields k / 16 tokens, whatever surrounds it. */
  lemma ScanRun(a: string, c1: char, run: string, c2: char, b: string)
    requires !IsHexDigit(c1) && !IsHexDigit(c2) && AllHex(run)
    ensures |Scan(a + [c1] + run + [c2] + b)| == |Scan(a)| + |run| / TOKEN_LEN + |Scan(b)|
  {
    assert a + [c1] + run + [c2] + b == a + [c1] + (run + [c2] + b);
    ScanSeparated(a, c1, run + [c2] + b);
    ScanSeparated(run, c2, b);
    ScanAllHex(run);
  }

  lemma ScanStep(s: string, p: nat)
    requires p + TOKEN_LEN <= |s|
    ensures AllHex(s[p..p + TOKEN_LEN]) ==> Scan(s[p..]) == [s[p..p + TOKEN_LEN]] + Scan(s[p + TOKEN_LEN..])
    ensures !AllHex(s[p..p + TOKEN_LEN]) ==> Scan(s[p..]) == Scan(s[p + 1..])
  {
    assert s[p..][..TOKEN_LEN] == s[p..p + TOKEN_LEN];
    assert s[p..][TOKEN_LEN..] == s[p + TOKEN_LEN..];
    assert s[p..][1..] == s[p + 1..];
  }

  /** Each token is the text at its start, and every one of them ends by `end`. */
  predicate Located(s: string, tokens: seq<string>, starts: seq<nat>, end: nat)
  {
    |starts| == |tokens| &&
    forall k :: 0 <= k < |starts| ==> starts[k] + TOKEN_LEN <= end && end <= |s| && s[starts[k]..starts[k] + TOKEN_LEN] == tokens[k]
  }

  /** Each token ends before the next one starts. */
  predicate Disjoint(starts: seq<nat>)
  {
    forall k :: 0 < k < |starts| ==> starts[k - 1] + TOKEN_LEN <= starts[k]
  }

  /** Tokens that end by `p` also end by any later position of the text. */
  lemma LocatedLater(s: string, tokens: seq<string>, starts: seq<nat>, p: nat, q: nat)
    requires Located(s, tokens, starts, p) && p <= q <= |s|
    ensures Located(s, tokens, starts, q)
  {
  }

  lemma LocatedStep(s: string, tokens: seq<string>, starts: seq<nat>, p: nat)
    requires Located(s, tokens, starts, p) && Disjoint(starts) && p + TOKEN_LEN <= |s|
    ensures Located(s, tokens + [s[p..p + TOKEN_LEN]], starts + [p], p + TOKEN_LEN)
    ensures Disjoint(starts + [p])
  {
    var t, st := tokens + [s[p..p + TOKEN_LEN]], starts + [p];
    forall k | 0 <= k < |st| ensures st[k] + TOKEN_LEN <= p + TOKEN_LEN && s[st[k]..st[k] + TOKEN_LEN] == t[k] {
      if k < |starts| { assert st[k] == starts[k] && t[k] == tokens[k]; }
    }
    forall k | 0 < k < |st| ensures st[k - 1] + TOKEN_LEN <= st[k] {
      if k < |starts| { assert st[k - 1] == starts[k - 1] && st[k] == starts[k]; }
    }
  }

  /**
   * The `finditer` loop over the text, reporting where each token starts:
   * tokens come left to right, and each one ends before the next begins.
   */
  method FindTokens(s: string) returns (tokens: seq<string>, starts: seq<nat>)
    ensures tokens == Scan(s)
    ensures Located(s, tokens, starts, |s|) && Disjoint(starts)
  {
    var p: nat := 0;
    tokens, starts := [], [];
    while p + TOKEN_LEN <= |s|
      invariant p <= |s|
      invariant tokens + Scan(s[p..]) == Scan(s)
      invariant Located(s, tokens, starts, p) && Disjoint(starts)
      decreases |s| - p
    {
      var w := s[p..p + TOKEN_LEN];
      ScanStep(s, p);
      if AllHex(w) {
        AppendAssoc(tokens, [w], Scan(s[p + TOKEN_LEN..]));
        LocatedStep(s, tokens, starts, p);
        tokens, starts := tokens + [w], starts + [p];
        p := p + TOKEN_LEN;
      } else {
        LocatedLater(s, tokens, starts, p, p + 1);
        p := p + 1;
      }
    }
    assert Scan(s[p..]) == [];
    AppendNil(tokens);
  }

  /** `find_hex64_tokens_from_bytes`: the read decoded as ASCII, bytes from 0x80 up dropped, then scanned. */
  function ChunkTokens(data: seq<byte>): seq<string>
  {
    Scan(AsciiIgnore(data))
  }

  /** A byte from 0x80 up (0xFF included) inside a run of digits is dropped and does not break the token. */
  lemma HighByteInsideToken(a: seq<byte>, x: byte, b: seq<byte>)
    requires x >= 0x80
    ensures ChunkTokens(a + [x] + b) == ChunkTokens(a + b)
  {
    HighByteDropped(a, x, b);
    AsciiIgnoreAppend(a, b);
  }

  /** Tokens found in each read one after another; nothing is carried over between reads. */
  function AllTokens(chunks: seq<seq<byte>>): seq<string>
  {
    if chunks == [] then [] else AllTokens(chunks[..|chunks| - 1]) + ChunkTokens(chunks[|chunks| - 1])
  }

  lemma AllTokensSingle(c: seq<byte>)
    ensures AllTokens([c]) == ChunkTokens(c)
  {
    assert [c][..0] == [];
  }

  /** A token whose digits arrive in two reads is never found, while one read holding it all finds it. */
  lemma SplitTokenLost(a: seq<byte>, b: seq<byte>)
    requires |a| < TOKEN_LEN && |b| < TOKEN_LEN
    requires |AsciiIgnore(a + b)| == TOKEN_LEN && AllHex(AsciiIgnore(a + b))
    ensures AllTokens([a, b]) == []
    ensures AllTokens([a + b]) == [AsciiIgnore(a + b)]
  {
    assert [a, b][..1] == [a];
    AllTokensSingle(a);
    assert ChunkTokens(a) == [] by { assert |AsciiIgnore(a)| < TOKEN_LEN; }
    assert ChunkTokens(b) == [] by { assert |AsciiIgnore(b)| < TOKEN_LEN; }
    AllTokensSingle(a + b);
    var t := AsciiIgnore(a + b);
    assert t[..TOKEN_LEN] == t;
    assert Scan(t[TOKEN_LEN..]) == [];
    assert Scan(t) == [t] + [];
  }

  /** Each token paired with its sample: the lenient decode gives it, and so does the strict one. */
  predicate Decoded(tokens: seq<string>, samples: seq<IQ>)
  {
    |tokens| == |samples| &&
    forall k :: 0 <= k < |tokens| ==> HexToIQ(tokens[k], DEFAULT_ORDER) == Some(samples[k]) && DecodeTail(tokens[k]) == Ok(samples[k])
  }

  lemma DecodedAppend(t1: seq<string>, s1: seq<IQ>, t2: seq<string>, s2: seq<IQ>)
    requires Decoded(t1, s1) && Decoded(t2, s2)
    ensures Decoded(t1 + t2, s1 + s2)
  {
    forall k | 0 <= k < |t1 + t2|
      ensures HexToIQ((t1 + t2)[k], DEFAULT_ORDER) == Some((s1 + s2)[k]) && DecodeTail((t1 + t2)[k]) == Ok((s1 + s2)[k])
    {
      if k < |t1| {
        assert (t1 + t2)[k] == t1[k] && (s1 + s2)[k] == s1[k];
      } else {
        assert (t1 + t2)[k] == t2[k - |t1|] && (s1 + s2)[k] == s2[k - |t1|];
      }
    }
  }

  /** `hex64_to_iq_freq(hex_tok, fs)` on a token the scanner found. */
  method TokenSample(tok: string) returns (sample: IQ)
    requires |tok| == TOKEN_LEN && AllHex(tok)
    ensures Decoded([tok], [sample])
  {
    AgreesWithTail(tok);
    var r := HexToIQ(tok, DEFAULT_ORDER);
    sample := r.value;
  }

  /** The `for hex_tok in tokens` loop: one sample per token, in order. */
  method SampleAll(tokens: seq<string>) returns (samples: seq<IQ>)
    requires forall k :: 0 <= k < |tokens| ==> |tokens[k]| == TOKEN_LEN && AllHex(tokens[k])
    ensures Decoded(tokens, samples)
  {
    samples := [];
    for k := 0 to |tokens|
      invariant Decoded(tokens[..k], samples)
    {
      var sample := TokenSample(tokens[k]);
      TakeOneMore(tokens, k);
      DecodedAppend(tokens[..k], samples, [tokens[k]], [sample]);
      samples := samples + [sample];
    }
    TakeAll(tokens);
  }

  /** The body of the `while True` loop for one read: the 0xFF scan, then the token loop. */
  method OnChunk(data: seq<byte>) returns (rxErrors: nat, samples: seq<IQ>)
    ensures rxErrors == Count(data, RX_ERROR)
    ensures Decoded(ChunkTokens(data), samples)
  {
    rxErrors, samples := 0, [];
    if data != [] {
      rxErrors := CountRxErrors(data);
      var tokens, starts := FindTokens(AsciiIgnore(data));
      samples := SampleAll(tokens);
    }
  }

  /** The module-level loop over a sequence of reads; an empty read does nothing. */
  method Listen(chunks: seq<seq<byte>>) returns (rxErrors: nat, samples: seq<IQ>)
    ensures rxErrors == Count(Concat(chunks), RX_ERROR)
    ensures Decoded(AllTokens(chunks), samples)
  {
    rxErrors, samples := 0, [];
    assert chunks[..0] == [];
    for used := 0 to |chunks|
      invariant rxErrors == Count(Concat(chunks[..used]), RX_ERROR)
      invariant Decoded(AllTokens(chunks[..used]), samples)
    {
      var errors, found := OnChunk(chunks[used]);
      ConcatStep(chunks, used);
      DecodedAppend(AllTokens(chunks[..used]), samples, ChunkTokens(chunks[used]), found);
      CountAppend(Concat(chunks[..used]), chunks[used], RX_ERROR);
      rxErrors := rxErrors + errors;
      samples := samples + found;
    }
    TakeAll(chunks);
  }
}
