/**
 What a message from the stream does to the tables, said from the outside: by the topic
 at the end of its subject and by what its body decodes to.
 */
module Routing {
  import opened Rfc3339
  import opened Payload
  import opened Ledger
  import opened Registry

  /** The subject is the topic, or ends in a dot and the topic. */
  predicate OnTopic(subject: string, topic: string) {
    || subject == topic
    || (|subject| > |topic| && subject[|subject| - |topic|..] == topic && subject[|subject| - |topic| - 1] == '.')
  }

  /** A human answer to a stored request is stored, unless there is one; anything else is dropped. */
  ghost predicate AnswerTaken(s: Store, t: Store, code: string, response: Option<NotificationResponse>) {
    if code == "" && response.Some? && response.value.requestId in s.requests then
      var r := response.value;
      && r.requestId in t.responses
      && (r.requestId !in s.responses ==>
            var row := t.responses[r.requestId];
            row.accepted == r.accepted && row.action == r.action && row.text == r.text && row.at == Seconds(r.timestamp))
      && (forall q | q in s.responses :: q in t.responses && t.responses[q] == s.responses[q])
      && (forall q | q in t.responses :: q in s.responses || q == r.requestId)
      && t == s.(responses := t.responses)
    else t == s
  }

  /** A request of a known priority is stored, unless its id is; nothing else changes. */
  ghost predicate RequestTaken(s: Store, t: Store, request: Option<NotificationRequest>) {
    if request.Some? && request.value.priority in {"low", "normal", "high"} then
      var r := request.value;
      && r.id in t.requests
      && (r.id !in s.requests ==> t.requests[r.id].request == r && t.requests[r.id].at == Seconds(r.timestamp))
      && (forall q | q in s.requests :: q in t.requests && t.requests[q] == s.requests[q])
      && (forall q | q in t.requests :: q in s.requests || q == r.id)
      && t == s.(requests := t.requests)
    else t == s
  }

  /** An active event makes its flow active, a terminal one ends it, both leave an audit row; no other flow is touched. */
  ghost predicate EventTaken(s: Store, t: Store, event: Option<FlowLifecycleEvent>) {
    if event.Some? && !event.value.status.OtherStatus? then
      var e := event.value;
      && (e.status == Active ==>
            && e.flowId in t.active
            && t.active[e.flowId].flowLabel == e.flowLabel && t.active[e.flowId].metadata == e.metadata
            && t.active[e.flowId].lastActivity == Seconds(e.timestamp))
      && (e.status != Active ==> e.flowId !in t.active)
      && AuditKey(e.flowId, Seconds(e.timestamp)) in t.audit
      && (AuditKey(e.flowId, Seconds(e.timestamp)) !in s.audit ==>
            t.audit[AuditKey(e.flowId, Seconds(e.timestamp))].status == e.status)
      && (forall f | f != e.flowId :: Lookup(t.active, f) == Lookup(s.active, f))
      && (forall k | k != AuditKey(e.flowId, Seconds(e.timestamp)) :: Lookup(t.audit, k) == Lookup(s.audit, k))
      && t.requests == s.requests && t.responses == s.responses
    else t == s
  }

  ghost predicate Taken(s: Store, t: Store, m: Message) {
    if OnTopic(m.subject, "lifecycle") then EventTaken(s, t, m.event)
    else if OnTopic(m.subject, "request") then RequestTaken(s, t, m.request)
    else if OnTopic(m.subject, "response") then AnswerTaken(s, t, m.code, m.response)
    else t == s
  }

  lemma {:induction false} TopicIsSuffix(subject: string, topic: string)
    requires '.' !in topic
    ensures SubjectSuffix(subject) == topic <==> OnTopic(subject, topic)
  {
    if OnTopic(subject, topic) {
      var at := |subject| - |topic| - 1;
      if subject == topic {
        SuffixAfterLastDot("", topic);
      } else {
        assert subject == subject[..at] + "." + topic;
        SuffixAfterLastDot(subject[..at], topic);
      }
    } else {
      SuffixIsTopic(subject);
    }
  }

  lemma Topics(subject: string)
    ensures forall topic | topic in {"lifecycle", "request", "response"} :: SubjectSuffix(subject) == topic <==> OnTopic(subject, topic)
  {
    TopicIsSuffix(subject, "lifecycle");
    TopicIsSuffix(subject, "request");
    TopicIsSuffix(subject, "response");
  }

  lemma {:induction false} SuffixIsTopic(subject: string)
    ensures OnTopic(subject, SubjectSuffix(subject))
  {
    if subject == "" {
    } else if '.' in subject[1..] {
      SuffixIsTopic(subject[1..]);
      var topic := SubjectSuffix(subject[1..]);
      assert '.' !in topic ==> subject[1..] != topic;
      NoDotInSuffix(subject[1..]);
      assert subject[|subject| - |topic|..] == subject[1..][|subject| - 1 - |topic|..];
    } else if subject[0] == '.' {
      assert subject[|subject| - |subject[1..]|..] == subject[1..];
    }
  }

  lemma {:induction false} NoDotInSuffix(subject: string)
    ensures '.' !in SubjectSuffix(subject)
  {
    if subject == "" {
    } else if '.' in subject[1..] {
      NoDotInSuffix(subject[1..]);
    } else if subject[0] != '.' {
      assert subject == [subject[0]] + subject[1..];
    }
  }

  lemma ActiveIsTaken(s: Store, user: string, e: FlowLifecycleEvent)
    requires e.status == Active
    ensures EventTaken(s, Next(s, user, Lifecycle(e)), Some(e))
  {
  }

  lemma EventIsTaken(s: Store, user: string, e: FlowLifecycleEvent)
    ensures EventTaken(s, Next(s, user, Lifecycle(e)), Some(e))
  {
    if e.status == Active {
      ActiveIsTaken(s, user, e);
    }
  }

  lemma RequestIsTaken(s: Store, user: string, r: NotificationRequest, first: FlowId)
    ensures RequestTaken(s, Next(s, user, Request(r, first)), Some(r))
  {
  }

  lemma AnswerIsTaken(s: Store, user: string, r: NotificationResponse)
    ensures AnswerTaken(s, Next(s, user, Response(r)), "", Some(r))
  {
  }

  /** Every message is taken as its subject and body say. */
  lemma MessageIsTaken(s: Store, user: string, m: Message, first: FlowId)
    ensures Taken(s, Next(s, user, StepOf(m, first)), m)
  {
    TopicIsSuffix(m.subject, "lifecycle");
    TopicIsSuffix(m.subject, "request");
    TopicIsSuffix(m.subject, "response");
    match StepOf(m, first)
    case Lifecycle(e) => EventIsTaken(s, user, e);
    case Request(r, _) => RequestIsTaken(s, user, r, first);
    case Response(r) => AnswerIsTaken(s, user, r);
    case Ignored =>
  }
}
