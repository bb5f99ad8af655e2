/** The retained-evidence scanner: percent decoding, repeated to a fixed point
    within eight passes, and the marker verdict taken on what it reaches. */
module PercentDecode {
  import opened Seqs

  const MAX_PERCENT_DECODE_ROUNDS: nat := 8

  predicate IsHex(c: char) { '0' <= c <= '9' || 'a' <= c <= 'f' || 'A' <= c <= 'F' }

  function HexValue(c: char): (v: nat)
    requires IsHex(c)
    ensures v < 16
  {
    if c <= '9' then (c - '0') as nat else if c <= 'F' then (c - 'A') as nat + 10 else (c - 'a') as nat + 10
  }

  predicate StartsEscape(s: string) { |s| >= 3 && s[0] == '%' && IsHex(s[1]) && IsHex(s[2]) }

  function Escaped(s: string): char
    requires StartsEscape(s)
  {
    (HexValue(s[1]) * 16 + HexValue(s[2])) as char
  }

  /** One pass, left to right: each escape becomes its byte, anything else stays. */
  function Unquote(s: string): (r: string)
    ensures |r| <= |s|
  {
    if s == [] then []
    else if StartsEscape(s) then [Escaped(s)] + Unquote(s[3..])
    else [s[0]] + Unquote(s[1..])
  }

  /** The passes that change something before none does. */
  function Passes(s: string): (n: nat)
    decreases |s|
  {
    if Unquote(s) == s then 0 else
    (UnquoteShrinks(s); 1 + Passes(Unquote(s)))
  }

  function FixedPoint(s: string): (r: string)
    ensures Unquote(r) == r
    decreases |s|
  {
    if Unquote(s) == s then s else
    (UnquoteShrinks(s); FixedPoint(Unquote(s)))
  }

  lemma {:induction false} UnquoteShrinks(s: string)
    ensures Unquote(s) != s ==> |Unquote(s)| < |s|
  {
    if s != [] && !StartsEscape(s) {
      UnquoteShrinks(s[1..]);
      assert s == [s[0]] + s[1..];
    }
  }

  /** The fixed point when eight passes reach it; `None` is the scan error. */
  method PercentDecodeFixedPoint(value: string) returns (decoded: Option<string>)
    ensures decoded == (if Passes(value) <= MAX_PERCENT_DECODE_ROUNDS then Some(FixedPoint(value)) else None)
  {
    var current := value;
    for round := 0 to MAX_PERCENT_DECODE_ROUNDS
      invariant Passes(current) + round == Passes(value) && FixedPoint(current) == FixedPoint(value)
    {
      var next := Unquote(current);
      if next == current { return Some(current); }
      current := next;
    }
    if Unquote(current) != current { return None; }
    decoded := Some(current);
  }

  // ----- Nested encodings -----

  function HexDigit(v: nat): (c: char)
    requires v < 16
    ensures IsHex(c) && HexValue(c) == v
  {
    if v < 10 then '0' + v as char else 'A' + (v - 10) as char
  }

  function Hex(c: char): (s: string)
    requires c as int < 256
    ensures |s| == 2 && IsHex(s[0]) && IsHex(s[1]) && '%' !in s
  {
    [HexDigit(c as int / 16), HexDigit(c as int % 16)]
  }

  function Repeat25(n: nat): (s: string)
    ensures '%' !in s && |s| == 2 * n
  {
    if n == 0 then "" else "25" + Repeat25(n - 1)
  }

  function Digits(n: nat, c: char): (digits: string)
    requires c as int < 256
    ensures '%' !in digits && |digits| == 2 * n + 2
  {
    Repeat25(n) + Hex(c)
  }

  /** The self-test's probe: the first byte escaped, and its `%` escaped again
      `depth - 1` times over. */
  function Probe(depth: nat, text: string): (probe: string)
    requires depth > 0 && text != [] && text[0] as int < 256
  {
    "%" + Digits(depth - 1, text[0]) + text[1..]
  }

  /** Text in which no escape starts decodes to itself. */
  ghost predicate Plain(s: string)
  {
    forall i :: 0 <= i < |s| ==> !StartsEscape(s[i..])
  }

  lemma {:induction false} PlainIsFixed(s: string)
    ensures Unquote(s) == s <==> Plain(s)
  {
    if s != [] {
      assert s[0..] == s && s == [s[0]] + s[1..];
      PlainIsFixed(s[1..]);
      assert forall i :: 0 <= i < |s| - 1 ==> s[1..][i..] == s[i + 1..];
      if Plain(s[1..]) && !StartsEscape(s) {
        forall i | 0 <= i < |s| ensures !StartsEscape(s[i..]) {
          if i > 0 { assert s[1..][i - 1..] == s[i..]; }
        }
      }
      if StartsEscape(s) { assert |Unquote(s[3..])| <= |s| - 3; }
    }
  }

  lemma {:induction false} DigitsStay(digits: string, rest: string)
    requires '%' !in digits
    ensures Unquote(digits + rest) == digits + Unquote(rest)
  {
    if digits == [] {
      assert digits + rest == rest;
    } else {
      var s := digits + rest;
      assert digits[0] in digits;
      assert s[0] == digits[0] && s[1..] == digits[1..] + rest;
      DigitsStay(digits[1..], rest);
    }
  }

  lemma PlainTail(text: string)
    requires text != [] && Plain(text)
    ensures Unquote(text[1..]) == text[1..]
  {
    assert forall i :: 0 <= i < |text| - 1 ==> text[1..][i..] == text[i + 1..];
    PlainIsFixed(text[1..]);
  }

  lemma LastLayer(text: string)
    requires text != [] && text[0] as int < 256 && Plain(text)
    ensures Unquote(Probe(1, text)) == text
  {
    PlainTail(text);
    HexDecodes(text[0]);
    EscapeDecodes(Hex(text[0]), text[1..]);
    assert Digits(0, text[0]) == Hex(text[0]);
    assert text == [text[0]] + text[1..];
  }

  lemma InnerLayer(depth: nat, text: string)
    requires depth > 1 && text != [] && text[0] as int < 256 && Plain(text)
    ensures Unquote(Probe(depth, text)) == Probe(depth - 1, text)
  {
    PlainTail(text);
    DigitsMore(depth - 1, text[0]);
    hide Unquote, Digits, Plain;
    var digits, tail := Digits(depth - 2, text[0]), text[1..];
    Regroup("25", digits, tail);
    EscapeDecodes("25", digits + tail);
    DigitsStay(digits, tail);
    Regroup("", digits, tail);
  }

  lemma DigitsMore(n: nat, c: char)
    requires n > 0 && c as int < 256
    ensures Digits(n, c) == "25" + Digits(n - 1, c)
  {
    assert Repeat25(n) == "25" + Repeat25(n - 1);
  }

  lemma Regroup(pair: string, digits: string, tail: string)
    ensures "%" + (pair + digits) + tail == "%" + pair + (digits + tail)
    ensures "%" + digits + tail == ['%'] + (digits + tail)
  {
  }

  /** One pass takes one layer off a probe. */
  lemma ProbePass(depth: nat, text: string)
    requires depth > 0 && text != [] && text[0] as int < 256 && Plain(text)
    ensures Unquote(Probe(depth, text)) == if depth == 1 then text else Probe(depth - 1, text)
  {
    hide Unquote, Plain, Probe;
    if depth == 1 { LastLayer(text); } else { InnerLayer(depth, text); }
  }

  lemma HexDecodes(c: char)
    requires c as int < 256
    ensures HexValue(Hex(c)[0]) * 16 + HexValue(Hex(c)[1]) == c as int
  {
  }

  lemma EscapeDecodes(digits: string, rest: string)
    requires |digits| == 2 && IsHex(digits[0]) && IsHex(digits[1])
    ensures Unquote("%" + digits + rest) == [(HexValue(digits[0]) * 16 + HexValue(digits[1])) as char] + Unquote(rest)
  {
    var s := "%" + digits + rest;
    assert s[1] == digits[0] && s[2] == digits[1] && s[3..] == rest;
  }

  lemma ProbeChanges(depth: nat, text: string)
    requires depth > 0 && text != [] && text[0] as int < 256
    ensures |Probe(depth, text)| == |text| + 2 * depth
  {
  }

  /** A probe of any depth takes exactly that many passes back to its text. */
  lemma {:induction false} ProbeDepth(depth: nat, text: string)
    requires depth > 0 && text != [] && text[0] as int < 256 && Plain(text)
    ensures Passes(Probe(depth, text)) == depth && FixedPoint(Probe(depth, text)) == text
  {
    ProbePass(depth, text);
    ProbeChanges(depth, text);
    if depth == 1 {
      PlainIsFixed(text);
    } else {
      ProbeChanges(depth - 1, text);
      ProbeDepth(depth - 1, text);
    }
  }

  /** A probe comes back exactly when nothing in the text itself is an escape. */
  lemma ProbeComesBack(depth: nat, text: string)
    requires depth > 0 && text != [] && text[0] as int < 256
    ensures FixedPoint(Probe(depth, text)) == text <==> Plain(text)
  {
    PlainIsFixed(text);
    if Plain(text) { ProbeDepth(depth, text); }
  }

  /** A hexadecimal digit stands for the same value in either case. */
  lemma HexDigitsMean(v: nat)
    requires v < 16
    ensures IsHex("0123456789abcdef"[v]) && HexValue("0123456789abcdef"[v]) == v
    ensures IsHex("0123456789ABCDEF"[v]) && HexValue("0123456789ABCDEF"[v]) == v
  {
  }

  lemma HexOnly(c: char)
    ensures IsHex(c) <==> c in "0123456789abcdefABCDEF"
  {
    if IsHex(c) { assert c in "0123456789abcdefABCDEF" by { HexPlace(c); } }
  }

  lemma HexPlace(c: char)
    requires IsHex(c)
    ensures c == "0123456789abcdef"[HexValue(c)] || c == "0123456789ABCDEF"[HexValue(c)]
    ensures c in "0123456789abcdefABCDEF"
  {
    var s, v := "0123456789abcdefABCDEF", HexValue(c);
    assert s[v] == "0123456789abcdef"[v];
    if v >= 10 { assert s[v + 6] == "0123456789ABCDEF"[v]; }
  }

  /** An escape decodes to its byte, whatever the case of its digits, and the
      rest of the text is decoded after it. */
  lemma EscapeMeans(high: char, low: char, rest: string)
    requires IsHex(high) && IsHex(low)
    ensures Unquote(['%', high, low] + rest) == [(16 * HexValue(high) + HexValue(low)) as char] + Unquote(rest)
  {
    var s := ['%', high, low] + rest;
    assert s[3..] == rest;
  }

  // ----- The marker verdict -----

  /** The spellings sought for a marker: exact ones, and ones in any case. */
  datatype Representations = Representations(exact: set<string>, anyCase: set<string>)

  type Spellings = string -> Representations

  predicate Discloses(decoded: string, spelled: Representations)
  {
    || (exists piece :: piece in spelled.exact && Contains(decoded, piece))
    || (exists piece :: piece in spelled.anyCase && Contains(Lower(decoded), Lower(piece)))
  }

  /** `None` is the scan error: the nesting is too deep to look through. */
  function Verdict(value: string, markers: seq<string>, spellings: Spellings): (found: Option<bool>)
  {
    if Passes(value) > MAX_PERCENT_DECODE_ROUNDS then None
    else Some(exists i :: 0 <= i < |markers| && Discloses(FixedPoint(value), spellings(markers[i])))
  }

  method ContainsMarker(value: string, markers: seq<string>, spellings: Spellings) returns (found: Option<bool>)
    ensures found == Verdict(value, markers, spellings)
  {
    var decoded := PercentDecodeFixedPoint(value);
    if decoded.None? { return None; }
    for i := 0 to |markers|
      invariant forall k :: 0 <= k < i ==> !Discloses(decoded.value, spellings(markers[k]))
    {
      if Discloses(decoded.value, spellings(markers[i])) { return Some(true); }
    }
    found := Some(false);
  }

  lemma WholeOccurs(s: string)
    ensures Contains(s, s)
  {
    assert s[0..] == s;
  }

  /** The self-test holds of every marker: any spelling free of escapes is found
      through up to eight layers, and one layer more is refused. */
  lemma SelfTestHolds(marker: string, spellings: Spellings, text: string, depth: nat)
    requires text in spellings(marker).exact || text in spellings(marker).anyCase
    requires text != [] && text[0] as int < 256 && Plain(text) && depth > 0
    ensures Verdict(Probe(depth, text), [marker], spellings) ==
            if depth <= MAX_PERCENT_DECODE_ROUNDS then Some(true) else None
  {
    ProbeDepth(depth, text);
    WholeOccurs(text);
    WholeOccurs(Lower(text));
    assert Discloses(text, spellings([marker][0]));
  }

  lemma PieceOfPlain(s: string, piece: string)
    requires Plain(s) && Contains(s, piece)
    ensures Plain(piece)
  {
    var at :| 0 <= at <= |s| && piece <= s[at..];
    forall i | 0 <= i < |piece| ensures !StartsEscape(piece[i..]) {
      assert !StartsEscape(s[at + i..]);
      assert forall k :: 0 <= k < |piece| - i ==> piece[i..][k] == s[at + i..][k];
    }
  }

  lemma LowerEscapes(s: string, i: nat)
    requires i < |s|
    ensures StartsEscape(Lower(s)[i..]) <==> StartsEscape(s[i..])
  {
    LowerAt(s, i);
    if i + 2 < |s| {
      LowerAt(s, i + 1);
      LowerAt(s, i + 2);
    }
  }

  lemma LowerPlain(s: string)
    ensures Plain(Lower(s)) <==> Plain(s)
  {
    hide StartsEscape;
    forall i | 0 <= i < |s| ensures StartsEscape(Lower(s)[i..]) <==> StartsEscape(s[i..]) { LowerEscapes(s, i); }
  }

  /** Whatever the depth, a spelling that holds an escape is never what gives a
      value away: the decoded value holds none. */
  lemma FoundIsPlain(value: string, piece: string)
    ensures Contains(FixedPoint(value), piece) ==> Plain(piece)
    ensures Contains(Lower(FixedPoint(value)), Lower(piece)) ==> Plain(piece)
  {
    var decoded := FixedPoint(value);
    PlainIsFixed(decoded);
    LowerPlain(decoded);
    LowerPlain(piece);
    hide Plain, Contains, Lower;
    if Contains(decoded, piece) { PieceOfPlain(decoded, piece); }
    if Contains(Lower(decoded), Lower(piece)) { PieceOfPlain(Lower(decoded), Lower(piece)); }
  }

  // ----- Extra layers -----

  /** Any encoding of `value`: each byte escaped or not, a `%` always. */
  ghost predicate Encodes(encoded: string, value: string)
    decreases |encoded|
  {
    if value == [] then encoded == []
    else
      || (encoded != [] && encoded[0] != '%' && encoded[0] == value[0] && Encodes(encoded[1..], value[1..]))
      || (StartsEscape(encoded) && Escaped(encoded) == value[0] && Encodes(encoded[3..], value[1..]))
  }

  lemma {:induction false} DecodesLayer(encoded: string, value: string)
    requires Encodes(encoded, value)
    ensures Unquote(encoded) == value
    decreases |encoded|
  {
    if value != [] {
      assert value == [value[0]] + value[1..];
      if StartsEscape(encoded) {
        DecodesLayer(encoded[3..], value[1..]);
      } else {
        DecodesLayer(encoded[1..], value[1..]);
      }
    }
  }

  /** Encodings of encodings: `layers[k]` encodes `layers[k - 1]`. */
  ghost predicate Layers(layers: seq<string>)
  {
    layers != [] && forall k :: 0 < k < |layers| ==> Encodes(layers[k], layers[k - 1]) && layers[k] != layers[k - 1]
  }

  /** Layers that change something add one pass each and never move the fixed
      point, so within eight passes they cannot change a verdict, and beyond
      eight they are always refused. */
  lemma {:induction false} LayersKeepVerdict(layers: seq<string>, markers: seq<string>, spellings: Spellings)
    requires Layers(layers)
    ensures var value, wrapped := layers[0], layers[|layers| - 1];
            && Passes(wrapped) == Passes(value) + |layers| - 1
            && FixedPoint(wrapped) == FixedPoint(value)
            && Verdict(wrapped, markers, spellings) ==
                 (if Passes(value) + |layers| - 1 <= MAX_PERCENT_DECODE_ROUNDS then Verdict(value, markers, spellings) else None)
  {
    if |layers| > 1 {
      var inner := layers[..|layers| - 1];
      LayersKeepVerdict(inner, markers, spellings);
      DecodesLayer(layers[|layers| - 1], layers[|layers| - 2]);
    }
  }
}
