/** The toast list: each toast gets the next number of a counter that only
    grows, is appended at the end of the list and is removed by its id; the
    look of a toast follows from its type. */
module Toasts {
  import opened Wrappers

  const DefaultKind: string := "info"
  const DefaultAction: string := ""
  const WarningKind: string := "warning"
  const LoginPrompt: string := "Please login to "

  /** A toast; `kind` is the source's `type` field, `timestamp` the clock
      reading when it was added. */
  datatype Toast = Toast(id: nat, message: string, kind: string, action: string, timestamp: int)

  /** Ids strictly increase along the list. */
  predicate IncreasingIds(ts: seq<Toast>)
  {
    forall i, j :: 0 <= i < j < |ts| ==> ts[i].id < ts[j].id
  }

  /** Whether some toast carries `id`. */
  predicate HasId(ts: seq<Toast>, id: nat)
  {
    exists k :: 0 <= k < |ts| && ts[k].id == id
  }

  /** The list without the toasts whose id is `id`, the others in order. */
  function Without(ts: seq<Toast>, id: nat): (r: seq<Toast>)
    ensures |r| <= |ts|
    ensures forall t :: t in r <==> t in ts && t.id != id
    ensures !HasId(ts, id) ==> r == ts
  {
    if ts == [] then []
    else
      var rest := Without(ts[1..], id);
      assert !HasId(ts, id) ==> !HasId(ts[1..], id) by {
        if HasId(ts[1..], id) {
          var k :| 0 <= k < |ts[1..]| && ts[1..][k].id == id;
          assert ts[k + 1].id == id;
        }
      }
      assert !HasId(ts, id) ==> ts[0].id != id;
      assert ts == [ts[0]] + ts[1..];
      if ts[0].id == id then rest else [ts[0]] + rest
  }

  /** Removing keeps the remaining toasts in their order: the ids still
      increase. */
  lemma {:induction false} WithoutKeepsOrder(ts: seq<Toast>, id: nat)
    requires IncreasingIds(ts)
    ensures IncreasingIds(Without(ts, id))
  {
    if ts != [] {
      var rest := ts[1..];
      assert IncreasingIds(rest) by {
        forall i, j | 0 <= i < j < |rest|
          ensures rest[i].id < rest[j].id
        {
          assert rest[i] == ts[i + 1] && rest[j] == ts[j + 1];
        }
      }
      WithoutKeepsOrder(rest, id);
      if ts[0].id != id {
        var r := [ts[0]] + Without(rest, id);
        forall i, j | 0 <= i < j < |r|
          ensures r[i].id < r[j].id
        {
          if i == 0 {
            assert r[j] in Without(rest, id);
            assert r[j] in rest;
            var k :| 0 <= k < |rest| && rest[k] == r[j];
            assert rest[k] == ts[k + 1];
          }
        }
      }
    }
  }

  /** Removing twice by the same id changes nothing more. */
  lemma {:induction false} WithoutIdempotent(ts: seq<Toast>, id: nat)
    ensures Without(Without(ts, id), id) == Without(ts, id)
  {
    var r := Without(ts, id);
    forall k | 0 <= k < |r|
      ensures r[k].id != id
    {
      assert r[k] in r;
    }
  }

  /** The colour family a toast of this type is drawn in. */
  datatype Tone = Green | Red | Amber | Purple

  function ToneOf(kind: string): Tone
  {
    if kind == "success" then Green
    else if kind == "error" then Red
    else if kind == "warning" then Amber
    else Purple
  }

  function ToneName(t: Tone): string
  {
    match t
    case Green => "green"
    case Red => "red"
    case Amber => "amber"
    case Purple => "purple"
  }

  datatype Glyph = CheckCircle | AlertCircle | Info

  /** The icon: a glyph and its text colour. */
  datatype Icon = Icon(glyph: Glyph, color: string)

  /** `getIcon`: a check for success, an alert for errors and warnings, an
      information mark otherwise, coloured in the type's tone. */
  function IconFor(kind: string): (r: Icon)
    ensures r.color == "text-" + ToneName(ToneOf(kind)) + "-600"
    ensures r.glyph == CheckCircle <==> ToneOf(kind) == Green
    ensures r.glyph == AlertCircle <==> ToneOf(kind) in {Red, Amber}
  {
    match kind
    case "success" => Icon(CheckCircle, "text-green-600")
    case "error" => Icon(AlertCircle, "text-red-600")
    case "warning" => Icon(AlertCircle, "text-amber-600")
    case _ => Icon(Info, "text-purple-600")
  }

  /** `getBorderColor`: the type's tone at shade 200. */
  function BorderColor(kind: string): (r: string)
    ensures r == "border-" + ToneName(ToneOf(kind)) + "-200"
  {
    match kind
    case "success" => "border-green-200"
    case "error" => "border-red-200"
    case "warning" => "border-amber-200"
    case _ => "border-purple-200"
  }

  /** `getBgColor`: the type's tone at shade 50. */
  function BgColor(kind: string): (r: string)
    ensures r == "bg-" + ToneName(ToneOf(kind)) + "-50"
  {
    match kind
    case "success" => "bg-green-50"
    case "error" => "bg-red-50"
    case "warning" => "bg-amber-50"
    case _ => "bg-purple-50"
  }

  /** The toasts of one list and the counter their ids are drawn from. */
  class ToastList {
    var toasts: seq<Toast>
    /** The last id handed out; the counter starts at zero. */
    var lastId: nat

    /** Ids increase along the list and none is above the counter, so the
        next id is fresh. */
    ghost predicate Valid()
      reads this
    {
      IncreasingIds(toasts) && forall k :: 0 <= k < |toasts| ==> toasts[k].id <= lastId
    }

    constructor ()
      ensures toasts == [] && lastId == 0 && Valid()
    {
      toasts := [];
      lastId := 0;
    }

    /** `addToast(message, type = 'info', action = '')`: the counter is
        advanced, a toast with the new id is appended after the others, and
        that id, larger than any before it, is returned. */
    method AddToast(message: string, kind: Option<string>, action: Option<string>, now: int) returns (id: nat)
      requires Valid()
      modifies this
      ensures Valid()
      ensures id == old(lastId) + 1 && lastId == id
      ensures forall k :: 0 <= k < |old(toasts)| ==> old(toasts)[k].id < id
      ensures toasts == old(toasts) + [Toast(id, message, kind.GetOr(DefaultKind), action.GetOr(DefaultAction), now)]
    {
      lastId := lastId + 1;
      id := lastId;
      toasts := toasts + [Toast(id, message, kind.GetOr(DefaultKind), action.GetOr(DefaultAction), now)];
    }

    /** `removeToast(id)`: the toasts with that id go, the others stay in
        order; an id not in the list changes nothing. */
    method RemoveToast(id: nat)
      requires Valid()
      modifies this
      ensures Valid()
      ensures toasts == Without(old(toasts), id) && lastId == old(lastId)
      ensures !HasId(old(toasts), id) ==> toasts == old(toasts)
    {
      WithoutKeepsOrder(toasts, id);
      toasts := Without(toasts, id);
    }

    /** `showLoginToast(action)`: a warning asking to sign in for `action`. */
    method ShowLoginToast(action: string, now: int)
      requires Valid()
      modifies this
      ensures Valid()
      ensures lastId == old(lastId) + 1
      ensures toasts == old(toasts) + [Toast(lastId, LoginPrompt + action, WarningKind, action, now)]
    {
      var _ := AddToast(LoginPrompt + action, Some(WarningKind), Some(action), now);
    }
  }
}
