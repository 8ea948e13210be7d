/** Go's `net.IP` values as the decoder produces them, the `To4` test that
    picks between A and AAAA records, and `net.ParseIP`'s dispatch between
    the IPv4 and the IPv6 text parser. */
module Address {
  import opened Wrappers
  import opened Text
  import opened IPv4

  /** The 16-byte form `net.ParseIP` always returns. */
  type IP16 = s: seq<byte> | |s| == 16 witness [0, 0, 0, 0, 0, 0, 0, 0, 0, 0, 0, 0, 0, 0, 0, 0]

  /** The IPv6 text parser of section 2.2 of RFC 4291, kept abstract: any
      partial function from text to 16 bytes. */
  type V6Parser = string -> Option<IP16>

  /** The prefix `::ffff:0:0/96` of IPv4-mapped IPv6 addresses (section
      2.5.5.2 of RFC 4291). */
  const V4InV6Prefix: seq<byte> := [0, 0, 0, 0, 0, 0, 0, 0, 0, 0, 255, 255]

  /** The 16-byte form of an IPv4 address, as `net.IPv4(a, b, c, d)`. */
  function Mapped(q: Quad): IP16 {
    V4InV6Prefix + q
  }

  /** `IP.To4`: the IPv4 address of a 16-byte value whose first ten bytes
      are zero and next two are 0xff; no IPv4 address otherwise. */
  function To4(ip: IP16): Option<Quad> {
    if (forall i :: 0 <= i < 10 ==> ip[i] == 0) && ip[10] == 255 && ip[11] == 255
    then Some(ip[12..])
    else None
  }

  /** `To4` and `Mapped` are inverse: a 16-byte value is representable as
      IPv4 exactly when it is the mapped form of that IPv4 address. */
  lemma To4Mapped(ip: IP16, q: Quad)
    ensures To4(ip) == Some(q) <==> ip == Mapped(q)
  {
    if ip == Mapped(q) {
      assert ip[12..] == q;
    }
    if To4(ip) == Some(q) {
      assert ip[..12] == V4InV6Prefix;
      assert ip == ip[..12] + ip[12..];
    }
  }

  predicate IsDelimiter(c: char) {
    c == '.' || c == ':' || c == '%'
  }

  /** The first of `.`, `:` and `%` in `s`: the character on which
      `net.ParseIP` decides which parser to run. */
  function FirstDelimiter(s: string): (d: Option<char>)
    ensures d.None? <==> forall i :: 0 <= i < |s| ==> !IsDelimiter(s[i])
    ensures d.Some? ==> IsDelimiter(d.value) && d.value in s
    ensures d.Some? ==> exists k :: 0 <= k < |s| && s[k] == d.value
                                    && forall j :: 0 <= j < k ==> !IsDelimiter(s[j])
  {
    if |s| == 0 then None
    else if IsDelimiter(s[0]) then Some(s[0])
    else
      var d := FirstDelimiter(s[1..]);
      assert forall i :: 1 <= i < |s| ==> s[i] == s[1..][i - 1];
      assert d.Some? ==> exists k :: 0 <= k < |s| && s[k] == d.value
                                     && forall j :: 0 <= j < k ==> !IsDelimiter(s[j]) by {
        if d.Some? {
          var k :| 0 <= k < |s[1..]| && s[1..][k] == d.value
                   && forall j :: 0 <= j < k ==> !IsDelimiter(s[1..][j]);
          assert s[k + 1] == d.value;
          forall j | 0 <= j < k + 1 ensures !IsDelimiter(s[j]) {
            if j > 0 { assert s[j] == s[1..][j - 1]; }
          }
        }
      }
      d
  }

  /** `net.ParseIP`: IPv4 text when `.` comes first (returned in mapped
      form), IPv6 text when `:` comes first, nothing when `%` comes first
      or no delimiter occurs at all. */
  function ParseIP(s: string, v6: V6Parser): Option<IP16> {
    match FirstDelimiter(s)
    case Some('.') => (match ParseIPv4(s) case Some(q) => Some(Mapped(q)) case None => None)
    case Some(':') => v6(s)
    case _ => None
  }

  /** Text with no `:` never reaches the IPv6 parser: it parses exactly
      when it is dotted-decimal, and then to the mapped address. */
  lemma ParseIPDotted(s: string, v6: V6Parser, q: Quad)
    requires ':' !in s
    ensures ParseIP(s, v6) == Some(Mapped(q)) <==> s == Render(q, '.')
    ensures ParseIP(s, v6).Some? ==> To4(ParseIP(s, v6).value).Some?
  {
    ParseIPv4Iff(s, q);
    RenderReplace(q, '.', ':');
    var d := FirstDelimiter(s);
    match ParseIPv4(s)
    case Some(q') =>
      ParseIPv4Iff(s, q');
      RenderReplace(q', '.', ':');
      assert s[|OctetText(q'[0])|] == '.';
      assert d == Some('.');
      if d == Some('.') {
        To4Mapped(Mapped(q'), q');
        if Mapped(q') == Mapped(q) {
          assert q' == Mapped(q')[12..] == Mapped(q)[12..] == q;
        }
      }
    case None =>
  }

  /** Text with no `:` and some character that is neither a digit nor
      `.` never parses. */
  lemma ParseIPStrayCharacter(s: string, v6: V6Parser, i: nat)
    requires ':' !in s
    requires i < |s| && s[i] != '.' && !IsDigit(s[i])
    ensures ParseIP(s, v6) == None
  {
    if ParseIP(s, v6).Some? {
      var q := To4(ParseIP(s, v6).value).value;
      ParseIPDotted(s, v6, q);
      To4Mapped(ParseIP(s, v6).value, q);
      RenderReplace(q, '.', ':');
    }
  }

  /** The text forms of section 2.2 of RFC 4291 that carry no embedded
      IPv4 part: eight colon-separated pieces, or a `::` (which shows up as
      an empty piece). A parser with this shape rejects everything else. */
  ghost predicate Rfc4291Shaped(v6: V6Parser) {
    forall s :: v6(s).Some? && '.' !in s ==> |Split(s, ':')| == 8 || "" in Split(s, ':')
  }
}
