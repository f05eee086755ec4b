/** `CustomApiMessage` and `CustomApiResponse` of src/Entity/custom_api_message.py:
    construction-time validation and the queries over a response's message list. */
module CustomApiMessages {
  import opened Common

  /** The dynamic value passed as `id`. `bool` is a subclass of `int` in Python, so
      `isinstance(True, int)` holds and a boolean id is accepted. */
  datatype IdValue = IntId(n: int) | BoolId(b: bool) | OtherId

  predicate IsPythonInt(id: IdValue) {
    id.IntId? || id.BoolId?
  }

  datatype ApiMessage = ApiMessage(id: IdValue, content: string, role: string, time: string)

  /** The `ValueError` raised by `__post_init__`, one per check, in check order. */
  datatype MessageError = IdNotInt | BlankContent | UnknownRole

  datatype Construction = Built(message: ApiMessage) | Rejected(error: MessageError)

  predicate KnownRole(role: string) {
    role == "user" || role == "agent"
  }

  /** What every constructed message satisfies. */
  predicate ValidMessage(m: ApiMessage) {
    IsPythonInt(m.id) && Strip(m.content) != [] && KnownRole(m.role)
  }

  /** `CustomApiMessage(...)`: the checks run in order and the first failing one raises. */
  function NewMessage(id: IdValue, content: string, role: string, time: string): (r: Construction)
    ensures r.Built? <==> IsPythonInt(id) && !AllSpace(content) && KnownRole(role)
    ensures r.Built? ==> r.message == ApiMessage(id, content, role, time) && ValidMessage(r.message)
    ensures r == Rejected(IdNotInt) <==> !IsPythonInt(id)
    ensures r == Rejected(BlankContent) <==> IsPythonInt(id) && AllSpace(content)
    ensures r == Rejected(UnknownRole) <==> IsPythonInt(id) && !AllSpace(content) && !KnownRole(role)
  {
    if !IsPythonInt(id) then Rejected(IdNotInt)
    else if Strip(content) == [] then Rejected(BlankContent)
    else if !KnownRole(role) then Rejected(UnknownRole)
    else Built(ApiMessage(id, content, role, time))
  }

  datatype ApiResponse = ApiResponse(schema: string, messages: seq<ApiMessage>)

  // ---------------------------------------------------------------------------
  // Python's string ordering
  // ---------------------------------------------------------------------------

  /** `a < b` on Python strings: code-point lexicographic order, a proper prefix first. */
  predicate LexLess(a: string, b: string)
    decreases |a|
  {
    if a == [] then b != []
    else if b == [] then false
    else if a[0] != b[0] then a[0] < b[0]
    else LexLess(a[1..], b[1..])
  }

  predicate LexLe(a: string, b: string) {
    a == b || LexLess(a, b)
  }

  lemma {:induction false} LexLessIrreflexive(a: string)
    ensures !LexLess(a, a)
    decreases |a|
  {
    if a != [] {
      LexLessIrreflexive(a[1..]);
    }
  }

  /** The order is total: of two distinct strings, exactly one is smaller. */
  lemma {:induction false} LexTotal(a: string, b: string)
    ensures a == b || LexLess(a, b) || LexLess(b, a)
    ensures !(LexLess(a, b) && LexLess(b, a))
    decreases |a|
  {
    if a != [] && b != [] && a[0] == b[0] {
      LexTotal(a[1..], b[1..]);
      if a[1..] == b[1..] {
        assert a == [a[0]] + a[1..] && b == [b[0]] + b[1..];
      }
    }
  }

  lemma {:induction false} LexTransitive(a: string, b: string, c: string)
    requires LexLess(a, b) && LexLess(b, c)
    ensures LexLess(a, c)
    decreases |a|
  {
    if a != [] && a[0] == b[0] && b[0] == c[0] {
      LexTransitive(a[1..], b[1..], c[1..]);
    }
  }

  lemma LeTransitive(a: string, b: string, c: string)
    requires LexLe(a, b) && LexLe(b, c)
    ensures LexLe(a, c)
  {
    if LexLess(a, b) && LexLess(b, c) {
      LexTransitive(a, b, c);
    }
  }

  // ---------------------------------------------------------------------------
  // Queries
  // ---------------------------------------------------------------------------

  /** The index `max(messages, key=time)` picks: Python's `max` replaces its candidate only
      on a strictly greater key, so the first maximal message wins. */
  function LatestIndex(ms: seq<ApiMessage>): (i: nat)
    requires ms != []
    ensures i < |ms|
    ensures forall j :: 0 <= j < |ms| ==> LexLe(ms[j].time, ms[i].time)
    ensures forall j :: 0 <= j < i ==> LexLess(ms[j].time, ms[i].time)
    decreases |ms|
  {
    if |ms| == 1 then 0
    else
      var init := ms[..|ms| - 1];
      var k := LatestIndex(init);
      var last := |ms| - 1;
      assert forall j :: 0 <= j < last ==> ms[j] == init[j];
      if LexLess(ms[k].time, ms[last].time) then
        LatestStep(ms, k);
        last
      else
        LexTotal(ms[k].time, ms[last].time);
        k
  }

  lemma LatestStep(ms: seq<ApiMessage>, k: nat)
    requires k < |ms| - 1
    requires forall j :: 0 <= j < |ms| - 1 ==> LexLe(ms[j].time, ms[k].time)
    requires LexLess(ms[k].time, ms[|ms| - 1].time)
    ensures forall j :: 0 <= j < |ms| ==> LexLe(ms[j].time, ms[|ms| - 1].time)
    ensures forall j :: 0 <= j < |ms| - 1 ==> LexLess(ms[j].time, ms[|ms| - 1].time)
  {
    forall j | 0 <= j < |ms| - 1 ensures LexLess(ms[j].time, ms[|ms| - 1].time) {
      if ms[j].time != ms[k].time {
        LexTransitive(ms[j].time, ms[k].time, ms[|ms| - 1].time);
      }
    }
  }

  /** `get_latest_message`. */
  function GetLatestMessage(r: ApiResponse): Option<ApiMessage> {
    if r.messages == [] then None else Some(r.messages[LatestIndex(r.messages)])
  }

  /** `None` exactly for an empty list; otherwise a member whose time is greatest, and the
      first such member in list order. */
  lemma GetLatestMessageSpec(r: ApiResponse)
    ensures GetLatestMessage(r).None? <==> r.messages == []
    ensures GetLatestMessage(r).Some? ==>
      exists i :: 0 <= i < |r.messages| && r.messages[i] == GetLatestMessage(r).value
        && (forall j :: 0 <= j < |r.messages| ==> LexLe(r.messages[j].time, r.messages[i].time))
        && (forall j :: 0 <= j < i ==> LexLess(r.messages[j].time, r.messages[i].time))
  {
    if r.messages != [] {
      var i := LatestIndex(r.messages);
      assert r.messages[i] == GetLatestMessage(r).value;
    }
  }

  /** The messages of one role, in list order. */
  function WithRole(ms: seq<ApiMessage>, role: string): (r: seq<ApiMessage>)
    ensures Subseq(r, ms)
    ensures forall m :: m in r ==> m.role == role
    ensures forall m :: Count(r, m) == if m.role == role then Count(ms, m) else 0
    decreases |ms|
  {
    if ms == [] then []
    else
      var init := ms[..|ms| - 1];
      var m := ms[|ms| - 1];
      var rest := WithRole(init, role);
      assert ms == init + [m];
      if m.role == role then
        SubseqExtend(rest, init, m);
        WithRoleCount(rest, init, m);
        rest + [m]
      else
        SubseqWeaken(rest, init, m);
        rest
  }

  lemma WithRoleCount(rest: seq<ApiMessage>, init: seq<ApiMessage>, m: ApiMessage)
    ensures forall x :: Count(rest + [m], x) == Count(rest, x) + (if m == x then 1 else 0)
    ensures forall x :: Count(init + [m], x) == Count(init, x) + (if m == x then 1 else 0)
  {
    forall x ensures Count(rest + [m], x) == Count(rest, x) + (if m == x then 1 else 0) {
      assert (rest + [m])[..|rest|] == rest;
    }
    forall x ensures Count(init + [m], x) == Count(init, x) + (if m == x then 1 else 0) {
      assert (init + [m])[..|init|] == init;
    }
  }

  /** `get_user_messages`. */
  function GetUserMessages(r: ApiResponse): seq<ApiMessage> {
    WithRole(r.messages, "user")
  }

  /** `get_agent_messages`. */
  function GetAgentMessages(r: ApiResponse): seq<ApiMessage> {
    WithRole(r.messages, "agent")
  }

  /** For validly constructed messages the two queries split the list. */
  lemma {:induction false} RolesPartition(ms: seq<ApiMessage>)
    requires forall m :: m in ms ==> ValidMessage(m)
    ensures |WithRole(ms, "user")| + |WithRole(ms, "agent")| == |ms|
    decreases |ms|
  {
    if ms != [] {
      var init := ms[..|ms| - 1];
      assert forall m :: m in init ==> m in ms;
      RolesPartition(init);
      assert ms[|ms| - 1] in ms;
    }
  }

  lemma UserAgentPartition(r: ApiResponse)
    requires forall m :: m in r.messages ==> ValidMessage(m)
    ensures |GetUserMessages(r)| + |GetAgentMessages(r)| == |r.messages|
  {
    RolesPartition(r.messages);
  }
}
