/** The subdomain decoder (`parseIP`): from a question name and the
    configured zones to the address encoded in the label next to the zone,
    or nothing. */
module Decoder {
  import opened Wrappers
  import opened Text
  import opened IPv4
  import opened Address

  /** The shortest label that can encode an IPv4 address, `1-2-3-4`. */
  const MinIPv4Len: nat := 7
  /** Candidates at least this long are read as IPv6. */
  const MinIPv6Len: nat := 15

  /** The first configured zone, in configuration order, that the
      lower-cased name ends with as plain text (no label boundary). */
  function FirstSuffixZone(lname: string, origins: seq<string>): (z: Option<string>)
    ensures z.None? <==> forall i :: 0 <= i < |origins| ==> !HasSuffix(lname, origins[i])
    ensures z.Some? ==> exists i :: 0 <= i < |origins| && origins[i] == z.value
                                    && forall j :: 0 <= j < i ==> !HasSuffix(lname, origins[j])
    ensures z.Some? ==> HasSuffix(lname, z.value)
  {
    if |origins| == 0 then None
    else if HasSuffix(lname, origins[0]) then Some(origins[0])
    else
      var z := FirstSuffixZone(lname, origins[1..]);
      assert forall i :: 1 <= i < |origins| ==> origins[i] == origins[1..][i - 1];
      if z.Some? then
        var i :| 0 <= i < |origins[1..]| && origins[1..][i] == z.value
                 && forall j :: 0 <= j < i ==> !HasSuffix(lname, origins[1..][j]);
        assert origins[i + 1] == z.value;
        assert forall j :: 0 <= j < i + 1 ==> !HasSuffix(lname, origins[j]) by {
          forall j | 0 <= j < i + 1 ensures !HasSuffix(lname, origins[j]) {
            if j > 0 { assert origins[j] == origins[1..][j - 1]; }
          }
        }
        z
      else z
  }

  /** The part of the original (not lower-cased) name left of the zone. */
  function Subdomain(name: string, zone: string): string
    requires |zone| <= |name|
  {
    name[..|name| - |zone|]
  }

  /** The reject ladder on the subdomain: it must be at least 7 long, split
      on `.` into at least two parts with an empty last part, and the
      second-to-last part (the candidate) must be non-empty, must not end in
      `-` and must be at least 7 long. The result is that candidate: the
      label right before the trailing `.`, whatever labels precede it. */
  function Candidate(sub: string): (c: Option<string>)
    ensures c.Some? ==> && |c.value| >= MinIPv4Len
                        && c.value[|c.value| - 1] != '-'
                        && '.' !in c.value
                        && HasSuffix(sub, c.value + ".")
                        && (|sub| == |c.value| + 1 || sub[|sub| - |c.value| - 2] == '.')
  {
    if |sub| < MinIPv4Len then None
    else
      var parts := Split(sub, '.');
      if |parts| < 2 || parts[|parts| - 1] != "" then None
      else
        var root := parts[|parts| - 2];
        if root == "" || HasSuffix(root, "-") then None
        else if |root| < MinIPv4Len then None
        else
          RootIsFinalLabel(sub);
          NoTrailingDash(root);
          Some(root)
  }

  lemma NoTrailingDash(root: string)
    requires root != "" && !HasSuffix(root, "-")
    ensures root[|root| - 1] != '-'
  {
    assert root[|root| - 1..] == [root[|root| - 1]];
  }

  /** When the subdomain splits with an empty last part, the part before it
      is the label right before the trailing `.`. */
  lemma RootIsFinalLabel(sub: string)
    requires |Split(sub, '.')| >= 2 && Split(sub, '.')[|Split(sub, '.')| - 1] == ""
    ensures var parts := Split(sub, '.');
            var root := parts[|parts| - 2];
            && '.' !in root
            && HasSuffix(sub, root + ".")
            && (|sub| == |root| + 1 || sub[|sub| - |root| - 2] == '.')
  {
    EndsWithSeparator(sub, '.');
    LastPartIsFinalLabel(sub[..|sub| - 1], '.');
    assert sub == sub[..|sub| - 1] + ".";
  }

  /** The last part of a split is a suffix preceded by the separator or by
      nothing. */
  lemma {:induction false} LastPartIsFinalLabel(s: string, sep: char)
    ensures var last := Split(s, sep)[|Split(s, sep)| - 1];
            HasSuffix(s, last) && (|s| == |last| || s[|s| - |last| - 1] == sep)
    decreases |s|
  {
    if |s| > 0 && s[|s| - 1] != sep {
      LastPartIsFinalLabel(s[..|s| - 1], sep);
    }
  }

  /** Conversely, a subdomain made of any prefix labels, a candidate label
      and the trailing `.` yields that candidate exactly when it passes the
      length and trailing-dash tests. */
  lemma CandidateOfLabels(pre: string, w: string)
    requires pre == "" || pre[|pre| - 1] == '.'
    requires '.' !in w
    ensures Candidate(pre + w + ".") ==
            (if |w| >= MinIPv4Len && w[|w| - 1] != '-' then Some(w) else None)
  {
    var sub := pre + w + ".";
    assert sub[..|sub| - 1] == pre + w;
    if pre == "" {
      SplitLabel(w, '.');
      assert pre + w == w;
    } else {
      var x := pre[..|pre| - 1];
      assert pre + w == x + "." + w;
      SplitAppendLabel(x, '.', w);
    }
    EndsWithSeparator(sub, '.');
    if |w| > 0 {
      assert HasSuffix(w, "-") <==> w[|w| - 1] == '-' by {
        assert w[|w| - 1..] == [w[|w| - 1]];
      }
    }
  }

  /** `parseIP`: only the first suffix zone is tried; a rejected subdomain
      gives nothing without looking at further zones. A candidate of 15 or
      more characters is read as IPv6 text with `-` replaced by `:`, a
      shorter one as IPv4 text with `-` replaced by `.`; both go through
      `net.ParseIP`. */
  function Decode(name: string, origins: seq<string>, v6: V6Parser): (ip: Option<IP16>)
    ensures (forall i :: 0 <= i < |origins| ==> !HasSuffix(ToLower(name), origins[i])) ==> ip.None?
  {
    match FirstSuffixZone(ToLower(name), origins)
    case None => None
    case Some(zone) =>
      match Candidate(Subdomain(name, zone))
      case None => None
      case Some(root) => ParseCandidate(root, v6)
  }

  /** A name that decodes ends with the zone it was decoded under, and a
      `.` stands right before that zone: the plain suffix scan only ever
      succeeds on a label boundary. */
  lemma DecodedZoneOnLabelBoundary(name: string, origins: seq<string>, v6: V6Parser)
    requires Decode(name, origins, v6).Some?
    ensures FirstSuffixZone(ToLower(name), origins).Some?
    ensures var zone := FirstSuffixZone(ToLower(name), origins).value;
            |zone| < |name| && HasSuffix(ToLower(name), zone) && name[|name| - |zone| - 1] == '.'
  {
    var zone := FirstSuffixZone(ToLower(name), origins).value;
    var sub := Subdomain(name, zone);
    var root := Candidate(sub).value;
    assert sub[|sub| - 1] == '.';
  }

  /** Family selection by length: 15 or more characters are IPv6 text with
      `-` standing for `:`, fewer are IPv4 text with `-` standing for `.`. */
  function ParseCandidate(root: string, v6: V6Parser): Option<IP16> {
    if |root| >= MinIPv6Len then ParseIP(Replace(root, '-', ':'), v6)
    else ParseIP(Replace(root, '-', '.'), v6)
  }

  /** The name made of prefix labels, a candidate label and a zone. */
  function LabelName(pre: string, w: string, zone: string): string {
    pre + w + "." + zone
  }

  /** The name whose candidate label is the dashed rendering of a quad. */
  function QuadName(pre: string, q: Quad, zone: string): string {
    LabelName(pre, Render(q, '-'), zone)
  }

  /** Every quad whose dashed rendering is shorter than 15 characters
      decodes to itself, whatever labels precede it, provided its zone is
      the first configured zone the name ends with. */
  lemma DashedQuadDecodes(pre: string, q: Quad, zone: string, origins: seq<string>, v6: V6Parser)
    requires pre == "" || pre[|pre| - 1] == '.'
    requires |Render(q, '-')| < MinIPv6Len
    requires FirstSuffixZone(ToLower(QuadName(pre, q, zone)), origins) == Some(zone)
    ensures Decode(QuadName(pre, q, zone), origins, v6) == Some(Mapped(q))
  {
    QuadCandidate(pre, q, zone);
    DashedParses(q, v6);
  }

  /** The dashed quad is the candidate of its name. */
  lemma QuadCandidate(pre: string, q: Quad, zone: string)
    requires pre == "" || pre[|pre| - 1] == '.'
    ensures |zone| <= |QuadName(pre, q, zone)|
    ensures Candidate(Subdomain(QuadName(pre, q, zone), zone)) == Some(Render(q, '-'))
  {
    var w := Render(q, '-');
    RenderShape(q, '-');
    RenderReplace(q, '-', '.');
    assert '.' !in w;
    assert Subdomain(QuadName(pre, q, zone), zone) == pre + w + ".";
    CandidateOfLabels(pre, w);
    assert w[|w| - 1] != '-' by { assert IsDigit(w[|w| - 1]); }
  }

  /** The dashed quad, with `-` replaced by `.`, parses to the quad. */
  lemma DashedParses(q: Quad, v6: V6Parser)
    ensures ParseIP(Replace(Render(q, '-'), '-', '.'), v6) == Some(Mapped(q))
  {
    RenderReplace(q, '-', '.');
    RenderReplace(q, '.', ':');
    var r := Render(q, '.');
    assert ':' !in r && '%' !in r;
    ParseIPDotted(r, v6, q);
  }

  /** The same with the zone as the only configured one. */
  lemma SingleZoneDecodes(pre: string, q: Quad, zone: string, v6: V6Parser)
    requires pre == "" || pre[|pre| - 1] == '.'
    requires IsLower(zone)
    requires |Render(q, '-')| < MinIPv6Len
    ensures Decode(QuadName(pre, q, zone), [zone], v6) == Some(Mapped(q))
  {
    var w := Render(q, '-') + ".";
    ToLowerAppend(pre + w, zone);
    ToLowerIsLower(zone);
    assert HasSuffix(ToLower(QuadName(pre, q, zone)), zone);
    DashedQuadDecodes(pre, q, zone, [zone], v6);
  }

  /** A candidate shorter than 15 characters with no `:` is read only as
      dotted-decimal: it decodes to an IPv4 address exactly when it is the
      dashed rendering of that address, and never to anything else. */
  lemma ShortCandidateIsQuad(pre: string, w: string, zone: string, origins: seq<string>,
                             v6: V6Parser, q: Quad)
    requires pre == "" || pre[|pre| - 1] == '.'
    requires '.' !in w && ':' !in w
    requires MinIPv4Len <= |w| < MinIPv6Len && w[|w| - 1] != '-'
    requires FirstSuffixZone(ToLower(LabelName(pre, w, zone)), origins) == Some(zone)
    ensures Decode(LabelName(pre, w, zone), origins, v6) == Some(Mapped(q)) <==> w == Render(q, '-')
    ensures Decode(LabelName(pre, w, zone), origins, v6).Some? ==>
              To4(Decode(LabelName(pre, w, zone), origins, v6).value).Some?
  {
    LabelCandidate(pre, w, zone);
    assert Decode(LabelName(pre, w, zone), origins, v6) == ParseIP(Replace(w, '-', '.'), v6);
    DashedTextIsQuad(w, v6, q);
  }

  /** Dashed text without `.` or `:`, with `-` replaced by `.`, parses to a quad
      exactly when it is that quad's dashed rendering. */
  lemma DashedTextIsQuad(w: string, v6: V6Parser, q: Quad)
    requires '.' !in w && ':' !in w
    ensures ParseIP(Replace(w, '-', '.'), v6) == Some(Mapped(q)) <==> w == Render(q, '-')
    ensures ParseIP(Replace(w, '-', '.'), v6).Some? ==> To4(ParseIP(Replace(w, '-', '.'), v6).value).Some?
  {
    var r := Replace(w, '-', '.');
    assert ':' !in r;
    ParseIPDotted(r, v6, q);
    RenderReplace(q, '-', '.');
    RenderReplace(q, '.', '-');
    ReplaceRoundTrip(w, '-', '.');
  }

  /** The candidate of such a name is its candidate label. */
  lemma LabelCandidate(pre: string, w: string, zone: string)
    requires pre == "" || pre[|pre| - 1] == '.'
    requires '.' !in w
    requires MinIPv4Len <= |w| && w[|w| - 1] != '-'
    ensures |zone| <= |LabelName(pre, w, zone)|
    ensures Candidate(Subdomain(LabelName(pre, w, zone), zone)) == Some(w)
  {
    assert Subdomain(LabelName(pre, w, zone), zone) == pre + w + ".";
    CandidateOfLabels(pre, w);
  }

  /** A candidate of 15 or more characters is read only as IPv6 text: the
      result is nothing or what the IPv6 parser makes of the candidate with
      `-` replaced by `:`, and a candidate with a `-` and no `%` always
      goes to that parser. */
  lemma LongCandidateIsV6(pre: string, w: string, zone: string, origins: seq<string>, v6: V6Parser)
    requires pre == "" || pre[|pre| - 1] == '.'
    requires '.' !in w
    requires MinIPv6Len <= |w| && w[|w| - 1] != '-'
    requires FirstSuffixZone(ToLower(LabelName(pre, w, zone)), origins) == Some(zone)
    ensures var ip := Decode(LabelName(pre, w, zone), origins, v6);
            ip == None || ip == v6(Replace(w, '-', ':'))
    ensures '-' in w && '%' !in w ==>
              Decode(LabelName(pre, w, zone), origins, v6) == v6(Replace(w, '-', ':'))
  {
    LabelCandidate(pre, w, zone);
    assert Decode(LabelName(pre, w, zone), origins, v6) == ParseCandidate(w, v6);
    ColonTextParse(w, v6);
  }

  /** A dot-free candidate with `-` replaced by `:` goes to the IPv6 parser
      or nowhere, and to the parser whenever it holds a `-` and no `%`. */
  lemma ColonTextParse(root: string, v6: V6Parser)
    requires '.' !in root
    ensures var r := Replace(root, '-', ':');
            ParseIP(r, v6) == None || ParseIP(r, v6) == v6(r)
    ensures '-' in root && '%' !in root ==> ParseIP(Replace(root, '-', ':'), v6) == v6(Replace(root, '-', ':'))
  {
    var r := Replace(root, '-', ':');
    assert '.' !in r;
    if '-' in root && '%' !in root {
      var k :| 0 <= k < |root| && root[k] == '-';
      assert r[k] == ':';
      assert FirstDelimiter(r) == Some(':');
    }
  }

  /** Quads whose dashed rendering is exactly 15 characters long (such as
      `255-255-255-255`) reach the IPv6 branch, and no parser of the RFC
      4291 text forms accepts four colon-separated decimal pieces: such
      names decode to nothing. */
  lemma FifteenCharQuadAbsent(pre: string, q: Quad, zone: string, origins: seq<string>, v6: V6Parser)
    requires pre == "" || pre[|pre| - 1] == '.'
    requires |Render(q, '-')| == MinIPv6Len
    requires Rfc4291Shaped(v6)
    requires FirstSuffixZone(ToLower(QuadName(pre, q, zone)), origins) == Some(zone)
    ensures Decode(QuadName(pre, q, zone), origins, v6) == None
  {
    QuadCandidate(pre, q, zone);
    RenderReplace(q, '-', ':');
    ColonQuadRejected(q, v6);
  }

  lemma ColonQuadRejected(q: Quad, v6: V6Parser)
    requires Rfc4291Shaped(v6)
    ensures ParseIP(Render(q, ':'), v6) == None
  {
    var r := Render(q, ':');
    ColonRenderingDelimiter(q);
    ColonRenderingPieces(q);
  }

  lemma ColonRenderingPieces(q: Quad)
    ensures |Split(Render(q, ':'), ':')| == 4
    ensures "" !in Split(Render(q, ':'), ':')
  {
    RenderShape(q, ':');
    SplitJoin(OctetTexts(q), ':');
    assert "" !in OctetTexts(q);
  }

  lemma ColonRenderingDelimiter(q: Quad)
    ensures FirstDelimiter(Render(q, ':')) == Some(':')
    ensures '.' !in Render(q, ':')
  {
    var r := Render(q, ':');
    RenderReplace(q, ':', '.');
    assert r[|OctetText(q[0])|] == ':';
    var d := FirstDelimiter(r);
    var j :| 0 <= j < |r| && r[j] == d.value;
    assert d.value == ':';
  }

  /** The reject ladder read at the level of the whole name: under its
      first suffix zone, a name made of prefix labels, a candidate label and
      the zone decodes from that label alone when it passes the length and
      trailing-dash tests, and to nothing otherwise. */
  lemma LabelDecodes(pre: string, w: string, zone: string, origins: seq<string>, v6: V6Parser)
    requires pre == "" || pre[|pre| - 1] == '.'
    requires '.' !in w
    requires FirstSuffixZone(ToLower(LabelName(pre, w, zone)), origins) == Some(zone)
    ensures Decode(LabelName(pre, w, zone), origins, v6) ==
            (if |w| >= MinIPv4Len && w[|w| - 1] != '-' then ParseCandidate(w, v6) else None)
  {
    assert Subdomain(LabelName(pre, w, zone), zone) == pre + w + ".";
    CandidateOfLabels(pre, w);
  }

  /** With a single lower-case zone the first-suffix condition always
      holds, so the prefix labels play no part. */
  lemma OnlyZoneCandidate(pre: string, w: string, zone: string, v6: V6Parser)
    requires pre == "" || pre[|pre| - 1] == '.'
    requires '.' !in w
    requires IsLower(zone)
    ensures Decode(LabelName(pre, w, zone), [zone], v6) ==
            (if |w| >= MinIPv4Len && w[|w| - 1] != '-' then ParseCandidate(w, v6) else None)
  {
    ToLowerAppend(pre + w + ".", zone);
    ToLowerIsLower(zone);
    assert HasSuffix(ToLower(LabelName(pre, w, zone)), zone);
    LabelDecodes(pre, w, zone, [zone], v6);
  }
}
