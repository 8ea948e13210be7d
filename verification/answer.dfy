/** Record synthesis and collection (`tryAnswerIP`): every class-IN
    question asking for A or AAAA whose name decodes contributes one
    address record, in question order; the query is answered when at least
    one record was produced. */
module Answer {
  import opened Wrappers
  import opened Address
  import opened Decoder

  newtype uint16 = x: int | 0 <= x < 0x1_0000
  newtype uint32 = x: int | 0 <= x < 0x1_0000_0000

  /** Record types and class from section 3.2 of RFC 1035 and section 2.1
      of RFC 3596. */
  const TypeA: uint16 := 1
  const TypeAAAA: uint16 := 28
  const ClassINET: uint16 := 1

  /** One entry of a query's question section. */
  datatype Question = Question(name: string, qtype: uint16, qclass: uint16)

  /** A synthesized address record; the address is kept in the 16-byte
      form the decoder returns (an A record carries its mapped IPv4 form). */
  datatype RR = RR(name: string, rrtype: uint16, rrclass: uint16, ttl: uint32, ip: IP16)

  /** The reply written on success: authoritative (AA bit, section 4.1.1 of
      RFC 1035), with the synthesized records as its answer section. */
  datatype Reply = Reply(authoritative: bool, answer: seq<RR>)

  /** The subdomain decoder with its configuration fixed: a question name
      to the address it encodes, if any. */
  type NameDecoder = string -> Option<IP16>

  /** Questions of class IN asking for A or AAAA; all others are skipped. */
  predicate Eligible(q: Question) {
    q.qclass == ClassINET && (q.qtype == TypeA || q.qtype == TypeAAAA)
  }

  /** An eligible question whose name decodes to an address. */
  predicate Answers(q: Question, decode: NameDecoder) {
    Eligible(q) && decode(q.name).Some?
  }

  /** Some question of the query answers under this decoder. */
  predicate AnyAnswers(qs: seq<Question>, decode: NameDecoder) {
    exists i :: 0 <= i < |qs| && Answers(qs[i], decode)
  }

  /** A record as the responder promises it: class IN, the configured TTL,
      and type A exactly when the address is IPv4-representable. */
  predicate WellFormed(rr: RR, ttl: uint32) {
    && rr.rrclass == ClassINET
    && rr.ttl == ttl
    && (rr.rrtype == TypeA || rr.rrtype == TypeAAAA)
    && (rr.rrtype == TypeA <==> To4(rr.ip).Some?)
  }

  /** The record for one question and its decoded address. The type follows
      the address, not the type the question asked for. */
  function Synthesize(q: Question, ip: IP16, ttl: uint32): RR {
    RR(q.name, if To4(ip).Some? then TypeA else TypeAAAA, ClassINET, ttl, ip)
  }

  /** What one question adds to the answer section: nothing or one record. */
  function Contribution(q: Question, ttl: uint32, decode: NameDecoder): seq<RR> {
    if !Eligible(q) then []
    else
      match decode(q.name)
      case None => []
      case Some(ip) => [Synthesize(q, ip, ttl)]
  }

  /** A question contributes one well-formed record echoing its name and
      carrying its decoded address when it answers, and nothing otherwise. */
  lemma ContributionShape(q: Question, ttl: uint32, decode: NameDecoder)
    ensures var c := Contribution(q, ttl, decode);
            && (|c| == 1 <==> Answers(q, decode))
            && (|c| == 0 <==> !Answers(q, decode))
            && (|c| == 1 ==> && WellFormed(c[0], ttl)
                             && c[0].name == q.name
                             && decode(q.name) == Some(c[0].ip))
  {
  }

  /** The answer section: the contributions of all questions, in order. */
  function Collect(qs: seq<Question>, ttl: uint32, decode: NameDecoder): (rrs: seq<RR>)
    ensures |rrs| <= |qs|
    ensures forall k :: 0 <= k < |rrs| ==> WellFormed(rrs[k], ttl)
    ensures |rrs| > 0 <==> AnyAnswers(qs, decode)
  {
    if |qs| == 0 then []
    else
      var init := qs[..|qs| - 1];
      var last := qs[|qs| - 1];
      var head := Collect(init, ttl, decode);
      ContributionShape(last, ttl, decode);
      assert forall i :: 0 <= i < |init| ==> init[i] == qs[i];
      head + Contribution(last, ttl, decode)
  }

  /** `rr` echoes the name of an answering question of `qs` and carries
      the address that name decodes to. */
  predicate SourcedFrom(rr: RR, qs: seq<Question>, decode: NameDecoder) {
    exists i :: 0 <= i < |qs| && Answers(qs[i], decode) && rr.name == qs[i].name && decode(qs[i].name) == Some(rr.ip)
  }

  /** Every record of the answer section comes from some answering
      question. */
  lemma {:induction false} CollectSources(qs: seq<Question>, ttl: uint32, decode: NameDecoder)
    ensures forall k :: 0 <= k < |Collect(qs, ttl, decode)| ==> SourcedFrom(Collect(qs, ttl, decode)[k], qs, decode)
    decreases |qs|
  {
    if |qs| > 0 {
      var init := qs[..|qs| - 1];
      var last := qs[|qs| - 1];
      var head := Collect(init, ttl, decode);
      var c := Contribution(last, ttl, decode);
      var rrs := Collect(qs, ttl, decode);
      CollectSources(init, ttl, decode);
      ContributionShape(last, ttl, decode);
      assert rrs == head + c;
      forall k | 0 <= k < |rrs|
        ensures SourcedFrom(rrs[k], qs, decode)
      {
        if k < |head| {
          assert rrs[k] == head[k];
          assert SourcedFrom(head[k], init, decode);
          var i :| 0 <= i < |init| && Answers(init[i], decode)
                   && head[k].name == init[i].name
                   && decode(init[i].name) == Some(head[k].ip);
          assert qs[i] == init[i];
        } else {
          assert |c| == 1 && rrs[k] == c[0];
          assert qs[|qs| - 1] == last;
        }
      }
    }
  }

  /** Appending one question appends its contribution. */
  lemma CollectSnoc(qs: seq<Question>, q: Question, ttl: uint32, decode: NameDecoder)
    ensures Collect(qs + [q], ttl, decode) == Collect(qs, ttl, decode) + Contribution(q, ttl, decode)
  {
    assert (qs + [q])[..|qs|] == qs;
  }

  /** The answer section of a concatenation of question lists is the
      concatenation of their answer sections: records come out in question
      order. */
  lemma {:induction false} CollectAppend(a: seq<Question>, b: seq<Question>, ttl: uint32,
                                         decode: NameDecoder)
    ensures Collect(a + b, ttl, decode) == Collect(a, ttl, decode) + Collect(b, ttl, decode)
    decreases |b|
  {
    if |b| == 0 {
      assert a + b == a;
    } else {
      var b' := b[..|b| - 1];
      var last := b[|b| - 1];
      var c := Contribution(last, ttl, decode);
      assert b == b' + [last];
      assert a + b == (a + b') + [last];
      calc {
        Collect(a + b, ttl, decode);
        { CollectSnoc(a + b', last, ttl, decode); }
        Collect(a + b', ttl, decode) + c;
        { CollectAppend(a, b', ttl, decode); }
        (Collect(a, ttl, decode) + Collect(b', ttl, decode)) + c;
        Collect(a, ttl, decode) + (Collect(b', ttl, decode) + c);
        { CollectSnoc(b', last, ttl, decode); }
        Collect(a, ttl, decode) + Collect(b, ttl, decode);
      }
    }
  }

  /** One question alone gives its own record when it answers, and nothing
      otherwise; the record echoes its name and carries the decoded
      address. */
  lemma CollectOne(q: Question, ttl: uint32, decode: NameDecoder)
    ensures Answers(q, decode) ==>
              Collect([q], ttl, decode) == [Synthesize(q, decode(q.name).value, ttl)]
    ensures !Answers(q, decode) ==> Collect([q], ttl, decode) == []
  {
    assert [q][..0] == [];
  }

  /** The record type never depends on the type the question asked for: an
      A question and an AAAA question for the same name get the same
      records. */
  lemma QtypeIgnored(name: string, ttl: uint32, decode: NameDecoder)
    ensures Contribution(Question(name, TypeA, ClassINET), ttl, decode)
         == Contribution(Question(name, TypeAAAA, ClassINET), ttl, decode)
  {
  }

  /** `tryAnswerIP`: no questions, or no record, means no reply; otherwise
      an authoritative reply carrying every collected record. */
  function TryAnswer(qs: seq<Question>, ttl: uint32, decode: NameDecoder): (r: Option<Reply>)
    ensures r.Some? <==> AnyAnswers(qs, decode)
    ensures r.Some? ==> && r.value.authoritative
                        && |r.value.answer| > 0
                        && r.value.answer == Collect(qs, ttl, decode)
  {
    if |qs| <= 0 then None
    else
      var rrs := Collect(qs, ttl, decode);
      if |rrs| > 0 then Some(Reply(true, rrs)) else None
  }
}
