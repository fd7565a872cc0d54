/** `process_email` and the reply it sends: one message goes from fetch, through
    body selection and classification, to at most one reply. Every call into the
    mail store, the MIME parser, the language model and the mail relay is an oracle
    answer carried in `Responses`; the pipeline records which calls it made. */
module Pipeline {
  import opened Outcomes
  import Text
  import Verdict

  /** One entry of the parsed `From` header: display name and mailbox address. */
  datatype Address = Address(name: string, email: string)

  /** A text or HTML part: its payload decodes with the part's charset, or decoding raises. */
  datatype Part = Decoded(text: string) | Undecodable

  /** A fetched and parsed message. */
  datatype Message = Message(subject: string, from: seq<Address>, textPart: Option<Part>, htmlPart: Option<Part>)

  /** What the outside world answers while one message is processed: the fetched and
      parsed message, the classifier's raw reply, the generator's raw reply, and
      whether reading the attachment and submitting to the relay went through. */
  datatype Responses = Responses(
    fetched: Result<Message>,
    classifierReply: Result<string>,
    generatorReply: Result<string>,
    sent: Outcome)

  /** A call the pipeline makes to an outside service, recorded whether or not it succeeds. */
  datatype Effect =
    | Classify(body: string)
    | Generate(body: string)
    | Send(to: string, subject: string, body: string)

  /** The calls made while processing one message and the exception, if any, that
      escaped from `process_email`. */
  datatype Processed = Processed(effects: seq<Effect>, raised: Option<Exc>)

  datatype BodyChoice = Readable(text: string) | NoReadable | DecodeError

  /** The body the classifier sees: the plain-text part when there is one, otherwise
      the HTML part. A part that is present but does not decode raises; it is not
      skipped in favour of the other part. */
  function SelectBody(m: Message): (b: BodyChoice)
    ensures b.Readable? ==>
      m.textPart == Some(Decoded(b.text)) || (m.textPart.None? && m.htmlPart == Some(Decoded(b.text)))
    ensures b == DecodeError <==>
      m.textPart == Some(Undecodable) || (m.textPart.None? && m.htmlPart == Some(Undecodable))
    ensures b == NoReadable <==> m.textPart.None? && m.htmlPart.None?
  {
    match (m.textPart, m.htmlPart)
    case (Some(Decoded(t)), _) => Readable(t)
    case (Some(Undecodable), _) => DecodeError
    case (None, Some(Decoded(h))) => Readable(h)
    case (None, Some(Undecodable)) => DecodeError
    case (None, None) => NoReadable
  }

  /** The subject of a reply: the original subject behind the prefix "Re: ", kept whole. */
  function ReplySubject(subject: string): (r: string)
    ensures |r| == |subject| + 4
    ensures r[..4] == "Re: " && r[4..] == subject
  {
    "Re: " + subject
  }

  /** Distinct subjects give distinct reply subjects. */
  lemma ReplySubjectInjective(s1: string, s2: string)
    requires ReplySubject(s1) == ReplySubject(s2)
    ensures s1 == s2
  {
    assert s1 == ReplySubject(s1)[4..];
  }

  /** The send attempts among the recorded calls, in order. */
  function SendsIn(effects: seq<Effect>): (sends: seq<Effect>)
    ensures |sends| <= |effects|
    ensures forall k :: 0 <= k < |sends| ==> sends[k].Send?
  {
    if effects == [] then []
    else (if effects[0].Send? then [effects[0]] else []) + SendsIn(effects[1..])
  }

  lemma {:induction false} SendsInAppend(a: seq<Effect>, b: seq<Effect>)
    ensures SendsIn(a + b) == SendsIn(a) + SendsIn(b)
  {
    if a != [] {
      assert (a + b)[1..] == a[1..] + b;
      SendsInAppend(a[1..], b);
    } else {
      assert a + b == b;
    }
  }

  /** The reply the pipeline would send to `m`, given the generated text. */
  function ReplyTo(m: Message, generated: string): Effect
    requires m.from != []
  {
    Send(m.from[0].email, ReplySubject(m.subject), Text.Strip(generated))
  }

  /** All stages up to the send went through and the verdict was positive: the
      message was fetched, had a readable body, the classifier answered "yes", the
      generator answered and the `From` header has an entry. */
  predicate ReadyToSend(r: Responses) {
    && r.fetched.Ok?
    && SelectBody(r.fetched.value).Readable?
    && r.classifierReply.Ok?
    && Verdict.IsJobOffer(r.classifierReply.value)
    && r.generatorReply.Ok?
    && r.fetched.value.from != []
  }

  /** `process_email` for one message. */
  function ProcessEmail(r: Responses): Processed
  {
    match r.fetched
    case Raised(e) => Processed([], Some(e))
    case Ok(m) =>
      match SelectBody(m)
      case NoReadable => Processed([], None)
      case DecodeError => Processed([], Some(Error))
      case Readable(body) =>
        var classified := [Classify(body)];
        match r.classifierReply
        case Raised(e) => Processed(classified, Some(e))
        case Ok(reply) =>
          if !Verdict.IsJobOffer(reply) then Processed(classified, None)
          else
            var generated := classified + [Generate(body)];
            match r.generatorReply
            case Raised(e) => Processed(generated, Some(e))
            case Ok(text) =>
              // `from_[0]` on an empty address list raises IndexError
              if m.from == [] then Processed(generated, Some(Error))
              else
                var attempted := generated + [ReplyTo(m, text)];
                match r.sent
                case Fail(e) => Processed(attempted, Some(e))
                case Pass => Processed(attempted, None)
  }

  /** A send is attempted exactly once when every earlier stage went through and the
      verdict is positive, and never otherwise; it goes to the address of the first
      `From` entry, under the reply subject, with the generated text stripped. */
  lemma SendOnlyOnPositiveVerdict(r: Responses)
    ensures SendsIn(ProcessEmail(r).effects) ==
      if ReadyToSend(r) then [ReplyTo(r.fetched.value, r.generatorReply.value)] else []
  {
    if ReadyToSend(r) {
      var m := r.fetched.value;
      var body := SelectBody(m).text;
      SendsInAppend([Classify(body), Generate(body)], [ReplyTo(m, r.generatorReply.value)]);
    }
  }

  /** A service is called only for a message that was fetched and has a readable
      body, and then the first call classifies the selected body; a message with
      neither a text nor an HTML part ends quietly, with no call at all. */
  lemma ClassifyOnlyReadableBodies(r: Responses)
    ensures ProcessEmail(r).effects != [] <==> r.fetched.Ok? && SelectBody(r.fetched.value).Readable?
    ensures ProcessEmail(r).effects != [] ==>
      ProcessEmail(r).effects[0] == Classify(SelectBody(r.fetched.value).text)
    ensures r.fetched.Ok? && SelectBody(r.fetched.value) == NoReadable ==> ProcessEmail(r) == Processed([], None)
  {
    var effects := ProcessEmail(r).effects;
    if r.fetched.Ok? && SelectBody(r.fetched.value).Readable? {
      var m := r.fetched.value;
      var body := SelectBody(m).text;
      if r.classifierReply.Ok? && Verdict.IsJobOffer(r.classifierReply.value) {
        if r.generatorReply.Ok? && m.from != [] {
          assert effects == [Classify(body), Generate(body), ReplyTo(m, r.generatorReply.value)];
        } else {
          assert effects == [Classify(body), Generate(body)];
        }
      } else {
        assert effects == [Classify(body)];
      }
    } else {
      assert effects == [];
    }
  }

  /** A negative verdict ends the pipeline quietly right after the classification. */
  lemma NegativeVerdictEndsQuietly(r: Responses)
    requires r.fetched.Ok? && SelectBody(r.fetched.value).Readable? && r.classifierReply.Ok?
    requires !Verdict.IsJobOffer(r.classifierReply.value)
    ensures ProcessEmail(r) == Processed([Classify(SelectBody(r.fetched.value).text)], None)
  {
  }

  /** `process_email` returns normally exactly when no stage raised: the message was
      fetched and either had no readable body, or was classified as no offer, or was
      answered and the reply went through. An interrupt escapes only when a service
      call was interrupted. */
  lemma ProcessEmailReturnsIff(r: Responses)
    ensures ProcessEmail(r).raised.None? <==>
      r.fetched.Ok? &&
      (SelectBody(r.fetched.value) == NoReadable ||
       (SelectBody(r.fetched.value).Readable? && r.classifierReply.Ok? &&
        (!Verdict.IsJobOffer(r.classifierReply.value) || (ReadyToSend(r) && r.sent.Pass?))))
    ensures ProcessEmail(r).raised == Some(Interrupt) ==>
      r.fetched == Raised(Interrupt) || r.classifierReply == Raised(Interrupt)
      || r.generatorReply == Raised(Interrupt) || r.sent == Fail(Interrupt)
  {
  }
}
