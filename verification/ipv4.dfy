/** Dotted-decimal IPv4 text, as Go's standard library parses it: exactly
    four fields separated by `.`, each a non-empty run of decimal digits
    with value at most 255 and no leading zero (a lone `0` is allowed). */
module IPv4 {
  import opened Wrappers
  import opened Text

  newtype byte = x: int | 0 <= x < 256

  /** The four octets of an IPv4 address, most significant first. */
  type Quad = q: seq<byte> | |q| == 4 witness [0, 0, 0, 0]

  predicate IsDigit(c: char) {
    '0' <= c <= '9'
  }

  predicate AllDigits(s: string) {
    forall i :: 0 <= i < |s| ==> IsDigit(s[i])
  }

  /** The value of a run of decimal digits, most significant first. */
  function DigitsValue(s: string): nat
    requires AllDigits(s)
  {
    if |s| == 0 then 0
    else DigitsValue(s[..|s| - 1]) * 10 + (s[|s| - 1] as int - '0' as int)
  }

  function DigitChar(d: nat): char
    requires d < 10
  {
    ('0' as int + d) as char
  }

  /** The canonical decimal text of an octet: no leading zero. */
  function OctetText(n: byte): string {
    if n < 10 then [DigitChar(n as nat)]
    else if n < 100 then [DigitChar(n as nat / 10), DigitChar(n as nat % 10)]
    else [DigitChar(n as nat / 100), DigitChar(n as nat / 10 % 10), DigitChar(n as nat % 10)]
  }

  /** One field of a dotted quad. */
  function ParseOctet(s: string): Option<byte> {
    if |s| == 0 || !AllDigits(s) then None
    else if |s| > 1 && s[0] == '0' then None
    else if DigitsValue(s) > 255 then None
    else Some(DigitsValue(s) as byte)
  }

  /** A digit run without a leading zero is worth at least 10^(|s|-1). */
  lemma {:induction false} DigitsValueLower(s: string)
    requires AllDigits(s) && |s| >= 1 && s[0] != '0'
    ensures |s| >= 2 ==> DigitsValue(s) >= 10
    ensures |s| >= 3 ==> DigitsValue(s) >= 100
    ensures |s| >= 4 ==> DigitsValue(s) >= 1000
    decreases |s|
  {
    if |s| >= 2 {
      var p := s[..|s| - 1];
      assert p[0] == s[0];
      DigitsValueLower(p);
      assert DigitsValue(p) >= 1 by {
        if |p| == 1 { assert p == [s[0]]; assert DigitsValue(p[..0]) == 0; }
      }
    }
  }

  lemma DigitsValue1(s: string)
    requires |s| == 1 && AllDigits(s)
    ensures DigitsValue(s) == s[0] as int - '0' as int
  {
    assert DigitsValue(s[..0]) == 0;
  }

  lemma DigitsValue2(s: string)
    requires |s| == 2 && AllDigits(s)
    ensures DigitsValue(s) == (s[0] as int - '0' as int) * 10 + (s[1] as int - '0' as int)
  {
    DigitsValue1(s[..1]);
  }

  lemma DigitsValue3(s: string)
    requires |s| == 3 && AllDigits(s)
    ensures DigitsValue(s) == (s[0] as int - '0' as int) * 100 + (s[1] as int - '0' as int) * 10
                              + (s[2] as int - '0' as int)
  {
    DigitsValue2(s[..2]);
  }

  /** The canonical text of an octet parses back to it. */
  lemma OctetTextParses(n: byte)
    ensures ParseOctet(OctetText(n)) == Some(n)
  {
    var t := OctetText(n);
    assert AllDigits(t);
    if n < 10 {
      DigitsValue1(t);
    } else if n < 100 {
      DigitsValue2(t);
    } else {
      DigitsValue3(t);
    }
  }

  /** A field that parses is the canonical text of its value. */
  lemma ParsedOctetIsText(s: string, n: byte)
    requires ParseOctet(s) == Some(n)
    ensures s == OctetText(n)
  {
    if |s| > 1 { DigitsValueLower(s); }
    if |s| == 1 {
      ParsedOneDigit(s, n);
    } else if |s| == 2 {
      ParsedTwoDigits(s, n);
    } else {
      ParsedThreeDigits(s, n);
    }
  }

  lemma ParsedOneDigit(s: string, n: byte)
    requires |s| == 1 && AllDigits(s) && DigitsValue(s) == n as int
    ensures s == OctetText(n)
  {
    DigitsValue1(s);
    assert s == [s[0]];
  }

  lemma ParsedTwoDigits(s: string, n: byte)
    requires |s| == 2 && AllDigits(s) && s[0] != '0' && DigitsValue(s) == n as int
    ensures s == OctetText(n)
  {
    DigitsValue2(s);
    var d0, d1 := s[0] as int - '0' as int, s[1] as int - '0' as int;
    assert n as nat / 10 == d0 && n as nat % 10 == d1;
    assert s == [s[0], s[1]];
  }

  lemma ParsedThreeDigits(s: string, n: byte)
    requires |s| == 3 && AllDigits(s) && s[0] != '0' && DigitsValue(s) == n as int
    ensures s == OctetText(n)
  {
    DigitsValue3(s);
    var d0, d1, d2 := s[0] as int - '0' as int, s[1] as int - '0' as int, s[2] as int - '0' as int;
    assert n as nat / 100 == d0 && n as nat / 10 % 10 == d1 && n as nat % 10 == d2;
    assert s == [s[0], s[1], s[2]];
  }

  /** Octet parsing accepts exactly the canonical text of each octet. */
  lemma OctetRoundTrip(s: string, n: byte)
    ensures ParseOctet(s) == Some(n) <==> s == OctetText(n)
  {
    if s == OctetText(n) { OctetTextParses(n); }
    if ParseOctet(s) == Some(n) { ParsedOctetIsText(s, n); }
  }

  /** The four octets written in decimal and joined by `sep`: `.` for the
      dotted form, `-` for the form encoded into a DNS label. */
  function Render(q: Quad, sep: char): string {
    OctetText(q[0]) + [sep] + OctetText(q[1]) + [sep] + OctetText(q[2]) + [sep] + OctetText(q[3])
  }

  /** Go's IPv4 text parser (reached from `net.ParseIP` once the first
      delimiter seen is `.`). */
  function ParseIPv4(s: string): Option<Quad> {
    var fields := Split(s, '.');
    if |fields| != 4 then None else ParseFields(fields)
  }

  /** All four fields must parse. */
  function ParseFields(fs: seq<string>): Option<Quad>
    requires |fs| == 4
  {
    if ParseOctet(fs[0]).Some? && ParseOctet(fs[1]).Some? && ParseOctet(fs[2]).Some? && ParseOctet(fs[3]).Some?
    then Some([ParseOctet(fs[0]).value, ParseOctet(fs[1]).value, ParseOctet(fs[2]).value, ParseOctet(fs[3]).value])
    else None
  }

  function OctetTexts(q: Quad): seq<string> {
    [OctetText(q[0]), OctetText(q[1]), OctetText(q[2]), OctetText(q[3])]
  }

  /** The rendering is the octet texts joined by a separator that none of
      them contains, between 7 (`0.0.0.0`) and 15 (`255.255.255.255`)
      characters long. */
  lemma RenderShape(q: Quad, sep: char)
    requires !IsDigit(sep)
    ensures Render(q, sep) == Join(OctetTexts(q), sep)
    ensures 7 <= |Render(q, sep)| <= 15
    ensures forall k :: 0 <= k < 4 ==> sep !in OctetTexts(q)[k]
  {
    var ts := OctetTexts(q);
    assert ts[..3][..2][..1] == [ts[0]];
    assert ts[..3][..2] == [ts[0], ts[1]];
    assert ts[..3] == [ts[0], ts[1], ts[2]];
    assert Join(ts[..3][..2], sep) == ts[0] + [sep] + ts[1];
    assert Join(ts[..3], sep) == ts[0] + [sep] + ts[1] + [sep] + ts[2];
    forall k | 0 <= k < 4
      ensures sep !in ts[k]
    {
      assert AllDigits(ts[k]);
    }
  }

  /** Every field of the dotted rendering parses back to its octet. */
  lemma ParseRendered(q: Quad)
    ensures ParseIPv4(Render(q, '.')) == Some(q)
  {
    RenderedFields(q);
    FieldsParse(q);
  }

  lemma RenderedFields(q: Quad)
    ensures Split(Render(q, '.'), '.') == OctetTexts(q)
  {
    RenderShape(q, '.');
    SplitJoin(OctetTexts(q), '.');
  }

  lemma FieldsParse(q: Quad)
    ensures ParseFields(OctetTexts(q)) == Some(q)
  {
    var ts := OctetTexts(q);
    OctetTextParses(q[0]);
    OctetTextParses(q[1]);
    OctetTextParses(q[2]);
    OctetTextParses(q[3]);
    assert [q[0], q[1], q[2], q[3]] == q;
  }

  /** Whatever parses is the canonical rendering of the result. */
  lemma ParsedIsRendered(s: string, q: Quad)
    requires ParseIPv4(s) == Some(q)
    ensures s == Render(q, '.')
  {
    var ts := OctetTexts(q);
    var fs := Split(s, '.');
    ParsedOctetIsText(fs[0], q[0]);
    ParsedOctetIsText(fs[1], q[1]);
    ParsedOctetIsText(fs[2], q[2]);
    ParsedOctetIsText(fs[3], q[3]);
    assert fs == ts;
    RenderShape(q, '.');
  }

  /** Dotted-decimal text and addresses are in one-to-one correspondence:
      the parser accepts a string exactly when it is the canonical
      rendering of the quad it returns. */
  lemma ParseIPv4Iff(s: string, q: Quad)
    ensures ParseIPv4(s) == Some(q) <==> s == Render(q, '.')
  {
    if s == Render(q, '.') {
      ParseRendered(q);
    }
    if ParseIPv4(s) == Some(q) {
      ParsedIsRendered(s, q);
    }
  }

  /** Changing the separator of a rendering is a character replacement;
      a rendering holds no `.` or `:` other than its separators. */
  lemma RenderReplace(q: Quad, from: char, into: char)
    requires !IsDigit(from) && !IsDigit(into)
    ensures Replace(Render(q, from), from, into) == Render(q, into)
    ensures forall i :: 0 <= i < |Render(q, from)| && Render(q, from)[i] != from ==> IsDigit(Render(q, from)[i])
  {
    RenderShape(q, from);
    RenderShape(q, into);
    ReplaceJoin(OctetTexts(q), from, into);
    var ts := OctetTexts(q);
    assert AllDigits(ts[0]) && AllDigits(ts[1]) && AllDigits(ts[2]) && AllDigits(ts[3]);
  }
}
