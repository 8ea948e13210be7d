/** The handler entry point (`ServeDNS`): authorise the query name against
    the configured zones, try to answer, and otherwise delegate to the next
    handler or fail, as the fallthrough policy says. */
module Responder {
  import opened Wrappers
  import opened Text
  import opened Address
  import opened Zones
  import opened Decoder
  import opened Answer

  /** The handler's configuration: zones in configuration order, record
      TTL, and the fallthrough policy as a predicate on query names
      (`fall.F.Through`). */
  datatype Config = Config(origins: seq<string>, ttl: uint32, fall: string -> bool)

  /** What the setup code guarantees before the handler is installed: at
      least one zone, every zone normalised, TTL in 1..65535. */
  predicate ValidConfig(cfg: Config) {
    && |cfg.origins| >= 1
    && (forall i :: 0 <= i < |cfg.origins| ==> Normalized(cfg.origins[i]))
    && 1 <= cfg.ttl <= 65535
  }

  /** The three ways a query leaves the handler: passed to the next handler,
      answered here with `RcodeSuccess`, or `RcodeServerFailure`. */
  datatype Outcome = Delegate | Answered(reply: Reply) | ServerFailure

  /** `request.Request.Name`: the first question's name, lower-cased; the
      root `.` when there is no question. */
  function RequestName(qs: seq<Question>): string {
    if |qs| == 0 then "." else ToLower(qs[0].name)
  }

  /** The decoder as the handler runs it, with its zones and IPv6 parser. */
  function DecoderOf(origins: seq<string>, v6: V6Parser): NameDecoder {
    name => Decode(name, origins, v6)
  }

  /** The handler's decision with the name decoder as a parameter. A name
      outside every zone is delegated at once; an answered query succeeds
      with an authoritative reply holding exactly the collected records; an
      unanswered one is delegated when the fallthrough policy covers the
      name and fails otherwise. The handler never replies with an empty
      answer section. */
  function Respond(cfg: Config, qs: seq<Question>, decode: NameDecoder): (out: Outcome)
    ensures !InZones(RequestName(qs), cfg.origins) ==> out == Delegate
    ensures out.Answered? <==> InZones(RequestName(qs), cfg.origins) && AnyAnswers(qs, decode)
    ensures out.Answered? ==> && out.reply.authoritative
                              && |out.reply.answer| > 0
                              && out.reply.answer == Collect(qs, cfg.ttl, decode)
    ensures InZones(RequestName(qs), cfg.origins) && !AnyAnswers(qs, decode) ==>
              (out == Delegate <==> cfg.fall(RequestName(qs))) &&
              (out == ServerFailure <==> !cfg.fall(RequestName(qs)))
  {
    var qname := RequestName(qs);
    if !InZones(qname, cfg.origins) then Delegate
    else
      match TryAnswer(qs, cfg.ttl, decode)
      case Some(reply) => Answered(reply)
      case None => if cfg.fall(qname) then Delegate else ServerFailure
  }

  /** `ServeDNS`: the decision above with the configured subdomain decoder.
      Only a query in the zones with some question that decodes is
      answered, and then with the records for those questions; outside the
      zones it is delegated; an in-zone query with nothing decoded follows
      the fallthrough policy. */
  function ServeDNS(cfg: Config, qs: seq<Question>, v6: V6Parser): (out: Outcome)
    ensures !InZones(RequestName(qs), cfg.origins) ==> out == Delegate
    ensures out.Answered? ==> && InZones(RequestName(qs), cfg.origins)
                              && AnyAnswers(qs, DecoderOf(cfg.origins, v6))
                              && out.reply.answer == Collect(qs, cfg.ttl, DecoderOf(cfg.origins, v6))
    ensures InZones(RequestName(qs), cfg.origins) && !AnyAnswers(qs, DecoderOf(cfg.origins, v6)) ==>
              (out == Delegate <==> cfg.fall(RequestName(qs))) &&
              (out == ServerFailure <==> !cfg.fall(RequestName(qs)))
  {
    Respond(cfg, qs, DecoderOf(cfg.origins, v6))
  }

  /** Every record of a successful reply has class IN, the configured TTL
      (within 1..65535 for a valid configuration), type A exactly when its
      address is IPv4-representable, and echoes the name of a question that
      decoded to that address. */
  lemma AnsweredRecords(cfg: Config, qs: seq<Question>, decode: NameDecoder)
    requires ValidConfig(cfg)
    requires Respond(cfg, qs, decode).Answered?
    ensures var rrs := Respond(cfg, qs, decode).reply.answer;
            forall k :: 0 <= k < |rrs| ==>
              && WellFormed(rrs[k], cfg.ttl)
              && 1 <= rrs[k].ttl <= 65535
              && SourcedFrom(rrs[k], qs, decode)
  {
    CollectSources(qs, cfg.ttl, decode);
  }

  /** Outside its zones the handler's outcome depends on nothing but the
      zones: not on the TTL, the fallthrough policy, or any decoding. */
  lemma OutsideZonesIgnoresRest(cfg: Config, cfg': Config, qs: seq<Question>, v6: V6Parser, v6': V6Parser)
    requires cfg.origins == cfg'.origins
    requires !InZones(RequestName(qs), cfg.origins)
    ensures ServeDNS(cfg, qs, v6) == ServeDNS(cfg', qs, v6') == Delegate
  {
  }

  /** Authorisation is label-aligned and the decoder's zone scan is a plain
      suffix test, so for a fully qualified first question in a valid
      configuration the scan always finds a zone once the name is
      authorised. */
  lemma AuthorisedNameHasSuffixZone(cfg: Config, qs: seq<Question>)
    requires ValidConfig(cfg)
    requires |qs| > 0 && |qs[0].name| > 0 && qs[0].name[|qs[0].name| - 1] == '.'
    requires InZones(RequestName(qs), cfg.origins)
    ensures FirstSuffixZone(ToLower(qs[0].name), cfg.origins).Some?
  {
    var lname := ToLower(qs[0].name);
    ToLowerIsLower(qs[0].name);
    assert lname[|lname| - 1] == '.';
    var i :| 0 <= i < |cfg.origins| && IsSubDomain(cfg.origins[i], lname);
    SubDomainHasSuffix(cfg.origins[i], lname);
  }

  /** The decoder's zone scan is a plain suffix test, but the reject ladder
      demands a `.` right before the zone, so a name that decodes under
      normalised zones always lies in one of them. */
  lemma DecodedNameIsInZones(name: string, origins: seq<string>, v6: V6Parser)
    requires forall i :: 0 <= i < |origins| ==> Normalized(origins[i])
    requires Decode(name, origins, v6).Some?
    ensures InZones(ToLower(name), origins)
  {
    DecodedZoneOnLabelBoundary(name, origins, v6);
    var zone := FirstSuffixZone(ToLower(name), origins).value;
    var i :| 0 <= i < |origins| && origins[i] == zone && forall j :: 0 <= j < i ==> !HasSuffix(ToLower(name), origins[j]);
    BoundarySuffixIsSubDomain(zone, name);
  }
}
