/** Concrete queries against a handler configured for `example.com.`. */
module Scenarios {
  import opened Wrappers
  import opened Text
  import opened IPv4
  import opened Address
  import opened Zones
  import opened Decoder
  import opened Answer
  import opened Responder

  const Zone: string := "example.com."

  function ExampleConfig(ttl: uint32, fall: string -> bool): Config {
    Config([Zone], ttl, fall)
  }

  /** A lower-case name made of labels followed by the zone lies in it. */
  lemma InExampleZone(pre: string)
    requires IsLower(pre) && |pre| > 0 && pre[|pre| - 1] == '.'
    ensures InZones(pre + Zone, [Zone])
  {
    var n := pre + Zone;
    ToLowerAppend(pre, Zone);
    ToLowerIsLower(pre);
    ToLowerIsLower(Zone);
    assert ToLower(n) == n;
    assert n[|n| - |Zone|..] == Zone;
    assert n[|n| - |Zone| - 1] == pre[|pre| - 1];
    assert IsSubDomain([Zone][0], n);
  }

  /** A query whose only question decodes to `ip` is answered with the one
      record for it. */
  lemma AnsweredWith(cfg: Config, q: Question, v6: V6Parser, ip: IP16)
    requires Eligible(q)
    requires InZones(RequestName([q]), cfg.origins)
    requires Decode(q.name, cfg.origins, v6) == Some(ip)
    ensures ServeDNS(cfg, [q], v6) == Answered(Reply(true, [Synthesize(q, ip, cfg.ttl)]))
  {
    var dec := DecoderOf(cfg.origins, v6);
    assert dec(q.name) == Some(ip);
    assert Answers([q][0], dec);
    CollectOne(q, cfg.ttl, dec);
  }

  /** A query whose only question does not decode is not answered. */
  lemma NotAnswered(cfg: Config, q: Question, v6: V6Parser)
    requires Decode(q.name, cfg.origins, v6).None?
    ensures !AnyAnswers([q], DecoderOf(cfg.origins, v6))
  {
    var dec := DecoderOf(cfg.origins, v6);
    assert dec([q][0].name).None?;
  }

  lemma ZoneIsLower()
    ensures IsLower(Zone)
  {
  }

  lemma RenderIsLower(q: Quad)
    ensures IsLower(Render(q, '-'))
  {
    RenderReplace(q, '-', '.');
  }

  /** A question for a dashed quad under the zone, with prefix labels that
      are already lower-case, is answered with the A record for the quad. */
  lemma QuadQuestionAnswered(pre: string, q: Quad, ttl: uint32, fall: string -> bool, v6: V6Parser)
    requires pre == "" || pre[|pre| - 1] == '.'
    requires IsLower(pre)
    requires |Render(q, '-')| < MinIPv6Len
    ensures ServeDNS(ExampleConfig(ttl, fall), [Question(QuadName(pre, q, Zone), TypeA, ClassINET)], v6)
         == Answered(Reply(true, [RR(QuadName(pre, q, Zone), TypeA, ClassINET, ttl, Mapped(q))]))
  {
    var name := QuadName(pre, q, Zone);
    ZoneIsLower();
    SingleZoneDecodes(pre, q, Zone, v6);
    RenderIsLower(q);
    IsLowerAppend(pre, Render(q, '-'));
    IsLowerAppend(pre + Render(q, '-'), ".");
    IsLowerAppend(pre + Render(q, '-') + ".", Zone);
    ToLowerIsLower(name);
    InExampleZone(pre + Render(q, '-') + ".");
    To4Mapped(Mapped(q), q);
    AnsweredWith(ExampleConfig(ttl, fall), Question(name, TypeA, ClassINET), v6, Mapped(q));
  }

  /** `1-2-3-4.example.com.` of type A: an A record for 1.2.3.4 with the
      configured TTL. */
  lemma PlainQuadAnswered(ttl: uint32, fall: string -> bool, v6: V6Parser)
    ensures ServeDNS(ExampleConfig(ttl, fall), [Question("1-2-3-4.example.com.", TypeA, ClassINET)], v6)
         == Answered(Reply(true, [RR("1-2-3-4.example.com.", TypeA, ClassINET, ttl, Mapped([1, 2, 3, 4]))]))
  {
    var q: Quad := [1, 2, 3, 4];
    assert Render(q, '-') == "1-2-3-4";
    assert QuadName("", q, Zone) == "1-2-3-4.example.com.";
    QuadQuestionAnswered("", q, ttl, fall, v6);
  }

  /** `host.10-0-0-1.example.com.`: the prefix label is ignored and the
      answer is an A record for 10.0.0.1. */
  lemma PrefixLabelIgnored(ttl: uint32, fall: string -> bool, v6: V6Parser)
    ensures ServeDNS(ExampleConfig(ttl, fall), [Question("host.10-0-0-1.example.com.", TypeA, ClassINET)], v6)
         == Answered(Reply(true, [RR("host.10-0-0-1.example.com.", TypeA, ClassINET, ttl, Mapped([10, 0, 0, 1]))]))
  {
    var q: Quad := [10, 0, 0, 1];
    assert Render(q, '-') == "10-0-0-1";
    assert QuadName("host.", q, Zone) == "host.10-0-0-1.example.com.";
    assert IsLower("host.");
    QuadQuestionAnswered("host.", q, ttl, fall, v6);
  }

  /** A lower-case question under the zone that does not decode leaves the
      outcome to the fallthrough policy. */
  lemma UndecodedQuestion(pre: string, qtype: uint16, ttl: uint32, fall: string -> bool, v6: V6Parser)
    requires IsLower(pre) && |pre| > 0 && pre[|pre| - 1] == '.'
    requires Decode(pre + Zone, [Zone], v6).None?
    ensures ServeDNS(ExampleConfig(ttl, fall), [Question(pre + Zone, qtype, ClassINET)], v6)
         == (if fall(pre + Zone) then Delegate else ServerFailure)
  {
    var name := pre + Zone;
    ZoneIsLower();
    IsLowerAppend(pre, Zone);
    ToLowerIsLower(name);
    InExampleZone(pre);
    NotAnswered(ExampleConfig(ttl, fall), Question(name, qtype, ClassINET), v6);
  }

  /** The IPv6 example `2001-db8--1` is only 11 characters long, so it is
      read as dotted-decimal (`2001.db8..1`) and decodes to nothing,
      whatever the IPv6 parser. */
  lemma ShortIPv6LiteralAbsent(v6: V6Parser)
    ensures Decode("2001-db8--1.example.com.", [Zone], v6) == None
  {
    var w := "2001-db8--1";
    ZoneIsLower();
    assert "2001-db8--1.example.com." == LabelName("", w, Zone);
    OnlyZoneCandidate("", w, Zone, v6);
    assert |w| == 11 && w[10] == '1';
    ShortIPv6LiteralRejected(v6);
  }

  lemma ShortIPv6LiteralRejected(v6: V6Parser)
    ensures ParseIP(Replace("2001-db8--1", '-', '.'), v6) == None
  {
    var w := "2001-db8--1";
    var r := Replace(w, '-', '.');
    assert r[5] == 'd';
    assert ':' !in w;
    ReplaceAbsent(w, '-', '.', ':');
    ParseIPStrayCharacter(r, v6, 5);
  }

  /** `net.ParseIP` chooses the family from the text, not from the branch:
      a short candidate such as `::1:2:3` contains no `-`, keeps its `:`
      and is handed to the IPv6 parser. */
  lemma ColonLabelReachesV6(v6: V6Parser)
    ensures Decode("x.::1:2:3.example.com.", [Zone], v6) == v6("::1:2:3")
  {
    var w := "::1:2:3";
    ZoneIsLower();
    assert "x.::1:2:3.example.com." == LabelName("x.", w, Zone);
    OnlyZoneCandidate("x.", w, Zone, v6);
    ColonLabelParses(v6);
  }

  lemma ColonLabelParses(v6: V6Parser)
    ensures |"::1:2:3"| >= MinIPv4Len && "::1:2:3"[6] != '-'
    ensures ParseCandidate("::1:2:3", v6) == v6("::1:2:3")
  {
    var w := "::1:2:3";
    assert Replace(w, '-', '.') == w;
    assert FirstDelimiter(w) == Some(':');
  }

  /** `255-255-255-255` has a 15-character dashed form. */
  lemma BroadcastRenderingIsFifteen()
    ensures |Render([255, 255, 255, 255], '-')| == MinIPv6Len
  {
    assert OctetText(255) == "255";
  }

  /** `255-255-255-255.example.com.` reaches the IPv6 branch and decodes to
      nothing under any RFC 4291-shaped IPv6 parser. */
  lemma BroadcastNameAbsent(v6: V6Parser)
    requires Rfc4291Shaped(v6)
    ensures Decode(QuadName("", [255, 255, 255, 255], Zone), [Zone], v6) == None
  {
    var q: Quad := [255, 255, 255, 255];
    BroadcastRenderingIsFifteen();
    ZoneIsLower();
    RenderIsLower(q);
    IsLowerAppend(Render(q, '-'), ".");
    IsLowerAppend(Render(q, '-') + ".", Zone);
    assert QuadName("", q, Zone) == Render(q, '-') + "." + Zone;
    ToLowerIsLower(QuadName("", q, Zone));
    assert HasSuffix(ToLower(QuadName("", q, Zone)), Zone);
    FifteenCharQuadAbsent("", q, Zone, [Zone], v6);
  }

  /** `2001-db8--1.example.com.` of type AAAA is too short for the IPv6
      branch and is not answered: without fallthrough the query fails. */
  lemma ShortIPv6NameFails(ttl: uint32, v6: V6Parser)
    ensures ServeDNS(ExampleConfig(ttl, _ => false), [Question("2001-db8--1.example.com.", TypeAAAA, ClassINET)], v6)
         == ServerFailure
  {
    var pre := "2001-db8--1.";
    assert pre + Zone == "2001-db8--1.example.com.";
    assert IsLower(pre);
    ShortIPv6LiteralAbsent(v6);
    UndecodedQuestion(pre, TypeAAAA, ttl, _ => false, v6);
  }

  /** `random.example.com.`: the candidate `random` is too short. */
  lemma RandomNameNotDecoded(v6: V6Parser)
    ensures Decode("random.example.com.", [Zone], v6) == None
  {
    ZoneIsLower();
    assert "random.example.com." == LabelName("", "random", Zone);
    OnlyZoneCandidate("", "random", Zone, v6);
  }

  /** Without fallthrough an undecodable name in the zone fails. */
  lemma RandomNameFails(ttl: uint32, v6: V6Parser)
    ensures ServeDNS(ExampleConfig(ttl, _ => false), [Question("random.example.com.", TypeA, ClassINET)], v6)
         == ServerFailure
  {
    var pre := "random.";
    assert pre + Zone == "random.example.com.";
    assert IsLower(pre);
    RandomNameNotDecoded(v6);
    UndecodedQuestion(pre, TypeA, ttl, _ => false, v6);
  }

  /** With fallthrough for every name the same query is delegated. */
  lemma RandomNameFallsThrough(ttl: uint32, v6: V6Parser)
    ensures ServeDNS(ExampleConfig(ttl, _ => true), [Question("random.example.com.", TypeA, ClassINET)], v6)
         == Delegate
  {
    var pre := "random.";
    assert pre + Zone == "random.example.com.";
    assert IsLower(pre);
    RandomNameNotDecoded(v6);
    UndecodedQuestion(pre, TypeA, ttl, _ => true, v6);
  }

  /** `foo.bar.org.` is outside the zone: delegated whatever the policy. */
  lemma ForeignNameDelegated(ttl: uint32, fall: string -> bool, v6: V6Parser)
    ensures ServeDNS(ExampleConfig(ttl, fall), [Question("foo.bar.org.", TypeA, ClassINET)], v6) == Delegate
  {
    var name := "foo.bar.org.";
    assert IsLower(name);
    ToLowerIsLower(name);
    ToLowerIsLower(Zone);
    assert !IsSubDomain(Zone, name);
    assert !InZones(RequestName([Question(name, TypeA, ClassINET)]), [Zone]);
  }
}
