/**
  The node edit dialog: a form holding the node's name and url, opened and
  closed by the user, whose submit handler validates both fields, sends an
  update carrying the node's identity and the edited fields, and on success
  closes the dialog and asks the parent to refresh its list. The `update`
  service call is not modelled; its outcome is a parameter of the submit.
 */
module NodeEdit {
  import opened Optional
  import opened ValidationRules

  datatype Node = Node(id: nat, name: string, url: string, isActive: bool, createdAt: string)

  /** The component's state: the two form fields, whether the dialog is
      open, and whether an update is being awaited. */
  datatype EditState = EditState(name: string, url: string, dialogOpen: bool, loading: bool)

  /** How the `update` call ends: with the server's response text, or by
      throwing an error carrying a message. */
  datatype UpdateOutcome = Resolved(response: string) | Rejected(errorMessage: string)

  datatype Toast = SuccessToast(text: string) | ErrorToast(text: string)

  /** One handled event: the update payload if `update` was called, the
      state while it was awaited, the state afterwards, the notification
      shown, how many times the parent's refresh was invoked, and whether the
      validator was told to show every field's message. */
  datatype Transition = Transition(
    request: Option<Node>,
    inFlight: Option<EditState>,
    after: EditState,
    toast: Option<Toast>,
    refreshCalls: nat,
    messagesShown: bool)

  /** The state on first render: the fields hold the node's own name and
      url, and the dialog is closed and idle. */
  function Init(item: Node): (s: EditState)
    ensures s.name == item.name && s.url == item.url
    ensures !s.dialogOpen && !s.loading
  {
    EditState(item.name, item.url, false, false)
  }

  /** Whether the validator lets the form through: a name of 2 to 100
      characters, and a url of 4 to 255 characters or, when the validator
      skips blank values, an empty one. */
  function FieldsValid(s: EditState, policy: BlankPolicy): (ok: bool)
    ensures ok <==> 2 <= |s.name| <= 100 && (4 <= |s.url| <= 255 || (policy.SkipBlank? && s.url == ""))
  {
    NameValid(s.name, policy) && UrlValid(s.url, policy)
  }

  /** The update payload: the edited name and url, and everything else
      taken from the node being edited. */
  function Payload(item: Node, s: EditState): (p: Node)
    ensures p.id == item.id && p.isActive == item.isActive && p.createdAt == item.createdAt
    ensures p.name == s.name && p.url == s.url
    ensures p == item <==> s.name == item.name && s.url == item.url
  {
    Node(item.id, s.name, s.url, item.isActive, item.createdAt)
  }

  /** Submitting the form as first rendered, when the node's own fields
      pass the rules, sends the node back exactly as it was. */
  lemma UneditedPayloadIsItem(item: Node, policy: BlankPolicy, outcome: UpdateOutcome)
    requires FieldsValid(Init(item), policy)
    ensures HandleSubmit(item, Init(item), policy, outcome).request == Some(item)
  {
  }

  /** The form's submit handler, given what `update` would do if called. */
  function HandleSubmit(item: Node, s: EditState, policy: BlankPolicy, outcome: UpdateOutcome): (t: Transition)
    ensures t.request.Some? <==> 2 <= |s.name| <= 100 && (4 <= |s.url| <= 255 || (policy.SkipBlank? && s.url == ""))
    ensures t.request.None? ==>
      && t.after == s && t.inFlight.None? && t.toast.None? && t.refreshCalls == 0 && t.messagesShown
    ensures t.request.Some? ==>
      && t.request.value.id == item.id
      && t.request.value.isActive == item.isActive
      && t.request.value.createdAt == item.createdAt
      && t.request.value.name == s.name
      && t.request.value.url == s.url
      && !t.messagesShown
    ensures t.request.Some? ==>
      t.inFlight.Some? && t.inFlight.value.loading && t.inFlight.value.(loading := s.loading) == s
    ensures t.request.Some? ==> !t.after.loading
    ensures t.after.name == s.name && t.after.url == s.url
    ensures t.refreshCalls <= 1
    ensures t.refreshCalls == 1 <==> t.request.Some? && outcome.Resolved?
    ensures t.request.Some? && outcome.Resolved? ==>
      !t.after.dialogOpen && t.toast == Some(SuccessToast(outcome.response))
    ensures t.request.Some? && outcome.Rejected? ==>
      t.after.dialogOpen == s.dialogOpen && t.toast == Some(ErrorToast(outcome.errorMessage))
  {
    if FieldsValid(s, policy) then
      var busy := s.(loading := true);
      match outcome
      case Resolved(response) =>
        Transition(Some(Payload(item, s)), Some(busy), busy.(dialogOpen := false, loading := false),
                   Some(SuccessToast(response)), 1, false)
      case Rejected(message) =>
        Transition(Some(Payload(item, s)), Some(busy), busy.(loading := false),
                   Some(ErrorToast(message)), 0, false)
    else
      Transition(None, None, s, None, 0, true)
  }

  /** The user events the dialog reacts to: opening or closing it, typing
      into either field, and submitting the form. */
  datatype Event =
    | OpenChange(open: bool)
    | NameInput(name: string)
    | UrlInput(url: string)
    | Submit(outcome: UpdateOutcome)

  /** Handles one event: opening or closing sets the dialog's open flag,
      typing replaces the field typed into, and only a submit can call
      `update`. */
  function Step(item: Node, s: EditState, policy: BlankPolicy, e: Event): (t: Transition)
    ensures t.request.Some? ==> e.Submit?
    ensures !e.Submit? ==> t.toast.None? && t.refreshCalls == 0 && t.inFlight.None? && !t.messagesShown
    ensures e.OpenChange? ==> t.after == s.(dialogOpen := e.open)
    ensures e.NameInput? ==> t.after == s.(name := e.name)
    ensures e.UrlInput? ==> t.after == s.(url := e.url)
    ensures e.Submit? ==> t == HandleSubmit(item, s, policy, e.outcome)
  {
    match e
    case OpenChange(open) => Transition(None, None, s.(dialogOpen := open), None, 0, false)
    case NameInput(name) => Transition(None, None, s.(name := name), None, 0, false)
    case UrlInput(url) => Transition(None, None, s.(url := url), None, 0, false)
    case Submit(outcome) => HandleSubmit(item, s, policy, outcome)
  }

  function ToSeq<T>(o: Option<T>): seq<T>
  {
    if o.Some? then [o.value] else []
  }

  /** What a sequence of events produced: the update payloads sent, the
      notifications shown and the number of refreshes, in order. */
  datatype Log = Log(requests: seq<Node>, toasts: seq<Toast>, refreshCalls: nat)

  /** Handles `events` one after another from state `s`. */
  function Run(item: Node, s: EditState, policy: BlankPolicy, events: seq<Event>): (EditState, Log)
    decreases |events|
  {
    if |events| == 0 then (s, Log([], [], 0))
    else
      var t := Step(item, s, policy, events[0]);
      var rest := Run(item, t.after, policy, events[1..]);
      (rest.0, Log(ToSeq(t.request) + rest.1.requests, ToSeq(t.toast) + rest.1.toasts,
                   t.refreshCalls + rest.1.refreshCalls))
  }

  function SuccessCount(toasts: seq<Toast>): nat
    decreases |toasts|
  {
    if |toasts| == 0 then 0
    else (if toasts[0].SuccessToast? then 1 else 0) + SuccessCount(toasts[1..])
  }

  /** A payload the dialog may send: it names the node being edited, keeps
      its status and creation time, and carries a name and url the rules
      accept. */
  predicate Acceptable(item: Node, policy: BlankPolicy, p: Node)
  {
    && p.id == item.id && p.isActive == item.isActive && p.createdAt == item.createdAt
    && NameValid(p.name, policy) && UrlValid(p.url, policy)
  }

  /** One event from an idle state: it ends idle, produces a notification
      exactly when it calls `update`, refreshes exactly when that
      notification is a success, and sends only acceptable payloads. */
  lemma StepKeepsInvariant(item: Node, s: EditState, policy: BlankPolicy, e: Event)
    requires !s.loading
    ensures var t := Step(item, s, policy, e);
      && !t.after.loading
      && (t.toast.Some? <==> t.request.Some?)
      && t.refreshCalls == (if t.toast.Some? && t.toast.value.SuccessToast? then 1 else 0)
      && (t.request.Some? ==> Acceptable(item, policy, t.request.value))
  {
  }

  /** Over any sequence of events from an idle state: the dialog ends idle,
      every `update` call is followed by exactly one notification, the
      parent is refreshed once per success notification and never
      otherwise, and every payload sent is an acceptable edit of the node. */
  lemma {:induction false} RunInvariant(item: Node, s: EditState, policy: BlankPolicy, events: seq<Event>)
    requires !s.loading
    ensures var (end, log) := Run(item, s, policy, events);
      && !end.loading
      && |log.toasts| == |log.requests|
      && log.refreshCalls == SuccessCount(log.toasts)
      && forall k :: 0 <= k < |log.requests| ==> Acceptable(item, policy, log.requests[k])
    decreases |events|
  {
    if |events| > 0 {
      var t := Step(item, s, policy, events[0]);
      StepKeepsInvariant(item, s, policy, events[0]);
      RunInvariant(item, t.after, policy, events[1..]);
      var rest := Run(item, t.after, policy, events[1..]);
      LogAppend(t, rest.1);
      AcceptableAppend(item, policy, t.request, rest.1.requests);
    }
  }

  lemma AcceptableAppend(item: Node, policy: BlankPolicy, first: Option<Node>, requests: seq<Node>)
    requires first.Some? ==> Acceptable(item, policy, first.value)
    requires forall k :: 0 <= k < |requests| ==> Acceptable(item, policy, requests[k])
    ensures forall k :: 0 <= k < |ToSeq(first) + requests| ==> Acceptable(item, policy, (ToSeq(first) + requests)[k])
  {
    var all := ToSeq(first) + requests;
    forall k | 0 <= k < |all|
      ensures Acceptable(item, policy, all[k])
    {
      if first.Some? && k > 0 {
        assert all[k] == requests[k - 1];
      } else if first.None? {
        assert all[k] == requests[k];
      }
    }
  }

  /** Prepending one transition's effects to a log that keeps the
      bookkeeping facts gives a log that keeps them. */
  lemma LogAppend(t: Transition, log: Log)
    requires (t.toast.Some? <==> t.request.Some?)
    requires t.refreshCalls == (if t.toast.Some? && t.toast.value.SuccessToast? then 1 else 0)
    requires |log.toasts| == |log.requests|
    requires log.refreshCalls == SuccessCount(log.toasts)
    ensures |ToSeq(t.toast) + log.toasts| == |ToSeq(t.request) + log.requests|
    ensures t.refreshCalls + log.refreshCalls == SuccessCount(ToSeq(t.toast) + log.toasts)
  {
    var toasts := ToSeq(t.toast) + log.toasts;
    if t.toast.Some? {
      assert toasts[1..] == log.toasts;
    } else {
      assert toasts == log.toasts;
    }
  }

  /** A session that starts from the first render keeps the invariant. */
  lemma SessionFromInit(item: Node, policy: BlankPolicy, events: seq<Event>)
    ensures var (end, log) := Run(item, Init(item), policy, events);
      && !end.loading
      && log.refreshCalls == SuccessCount(log.toasts) <= |log.requests|
  {
    RunInvariant(item, Init(item), policy, events);
    var log := Run(item, Init(item), policy, events).1;
    SuccessCountBound(log.toasts);
  }

  lemma {:induction false} SuccessCountBound(toasts: seq<Toast>)
    ensures SuccessCount(toasts) <= |toasts|
    decreases |toasts|
  {
    if |toasts| > 0 {
      SuccessCountBound(toasts[1..]);
    }
  }
}
