/**
 * The toast notifications of src/ui/Toast.tsx: a provider holding the
 * visible toasts (oldest first) and one dismissal timer per toast, fed
 * either directly through `show` or through the window-wide `app:toast`
 * event.
 *
 * Real time is not modelled: `setTimeout` registers an entry in `timers`
 * and the timer going off is the explicit step `Fire`. The random toast id
 * is an argument that must be fresh.
 */
module Toasts {
  import opened Wrappers

  type ToastId = string

  datatype Variant = Info | Success | Error

  datatype Toast = Toast(id: ToastId, text: string, variant: Variant)

  /** The delay after which `show` schedules the toast's dismissal, in milliseconds. */
  const DismissDelayMs: nat := 2200

  /** `show`'s default parameter: a missing variant is `info`. */
  function VariantOrDefault(v: Option<Variant>): (r: Variant)
    ensures v.Some? ==> r == v.value
    ensures v.None? ==> r == Info
  {
    if v.Some? then v.value else Info
  }

  /** The background colour of a toast. */
  function BgFor(v: Variant): (color: string)
    ensures color == "#2e7d32" <==> v == Success
    ensures color == "#c62828" <==> v == Error
    ensures color == "rgba(0,0,0,0.85)" <==> v == Info
  {
    assert "#2e7d32"[1] != "#c62828"[1] && |"#2e7d32"| == |"#c62828"| < |"rgba(0,0,0,0.85)"|;
    match v
    case Success => "#2e7d32"
    case Error => "#c62828"
    case Info => "rgba(0,0,0,0.85)"
  }

  /** Different variants are drawn in different colours (a corollary of `BgFor`'s three equivalences). */
  lemma BgForInjective(v: Variant, w: Variant)
    requires BgFor(v) == BgFor(w)
    ensures v == w
  {
  }

  function IdsOf(s: seq<Toast>): set<ToastId> {
    set t | t in s :: t.id
  }

  predicate DistinctIds(s: seq<Toast>) {
    forall i, j :: 0 <= i < j < |s| ==> s[i].id != s[j].id
  }

  /** `t.filter(x => x.id !== id)`. */
  function WithoutId(s: seq<Toast>, id: ToastId): (r: seq<Toast>)
    ensures |r| <= |s|
    ensures forall t :: t in r <==> t in s && t.id != id
    ensures IdsOf(r) == IdsOf(s) - {id}
  {
    if s == [] then []
    else
      var rest := WithoutId(s[1..], id);
      assert s == [s[0]] + s[1..];
      if s[0].id == id then rest else [s[0]] + rest
  }

  /** Filtering distributes over concatenation: the kept toasts stay in their order. */
  lemma {:induction false} WithoutIdAppend(a: seq<Toast>, b: seq<Toast>, id: ToastId)
    ensures WithoutId(a + b, id) == WithoutId(a, id) + WithoutId(b, id)
  {
    if a == [] {
      assert a + b == b;
    } else {
      assert (a + b)[0] == a[0];
      assert (a + b)[1..] == a[1..] + b;
      WithoutIdAppend(a[1..], b, id);
    }
  }

  /** Filtering out an id no toast carries changes nothing. */
  lemma {:induction false} WithoutAbsentId(s: seq<Toast>, id: ToastId)
    requires id !in IdsOf(s)
    ensures WithoutId(s, id) == s
  {
    if s != [] {
      assert s[0] in s;
      assert IdsOf(s[1..]) <= IdsOf(s) by {
        forall x | x in IdsOf(s[1..]) ensures x in IdsOf(s) {
          var t :| t in s[1..] && t.id == x;
          assert t in s;
        }
      }
      WithoutAbsentId(s[1..], id);
      assert s == [s[0]] + s[1..];
    }
  }

  /** Dismissing twice is dismissing once. */
  lemma WithoutIdIdempotent(s: seq<Toast>, id: ToastId)
    ensures WithoutId(WithoutId(s, id), id) == WithoutId(s, id)
  {
    WithoutAbsentId(WithoutId(s, id), id);
  }

  /** Filtering keeps distinct ids distinct. */
  lemma {:induction false} WithoutIdDistinct(s: seq<Toast>, id: ToastId)
    requires DistinctIds(s)
    ensures DistinctIds(WithoutId(s, id))
  {
    if s != [] {
      WithoutIdDistinct(s[1..], id);
      var rest := WithoutId(s[1..], id);
      if s[0].id != id {
        forall t | t in rest ensures t.id != s[0].id {
          var j :| 0 <= j < |s[1..]| && s[1..][j] == t;
          assert s[j + 1] == t;
        }
        assert DistinctIds([s[0]] + rest) by {
          forall i, j | 0 <= i < j < |[s[0]] + rest|
            ensures ([s[0]] + rest)[i].id != ([s[0]] + rest)[j].id
          {
            if i == 0 { assert ([s[0]] + rest)[j] in rest; }
            else { assert ([s[0]] + rest)[i] == rest[i - 1] && ([s[0]] + rest)[j] == rest[j - 1]; }
          }
        }
      }
    }
  }

  /** With distinct ids, dismissing a visible toast removes exactly one. */
  lemma {:induction false} WithoutPresentId(s: seq<Toast>, id: ToastId)
    requires DistinctIds(s)
    requires id in IdsOf(s)
    ensures |WithoutId(s, id)| == |s| - 1
  {
    assert s == [s[0]] + s[1..];
    assert DistinctIds(s[1..]) by {
      forall i, j | 0 <= i < j < |s[1..]| ensures s[1..][i].id != s[1..][j].id {
        assert s[1..][i] == s[i + 1] && s[1..][j] == s[j + 1];
      }
    }
    if s[0].id == id {
      forall t | t in s[1..] ensures t.id != id {
        var j :| 0 <= j < |s[1..]| && s[1..][j] == t;
        assert s[j + 1] == t;
      }
      WithoutAbsentId(s[1..], id);
    } else {
      assert id in IdsOf(s[1..]) by {
        var t :| t in s && t.id == id;
        assert t != s[0];
        assert t in s[1..];
      }
      WithoutPresentId(s[1..], id);
    }
  }

  /** The payload of an `app:toast` event; `detail` may be missing. */
  datatype ToastEvent =
    | NoDetail
    | Detail(text: Option<string>, variant: Option<Variant>)  // text: None unless a string

  /** The listener's guard: `d && typeof d.text === 'string'`, then `show`'s default variant. */
  function ToastPayload(e: ToastEvent): (p: Option<(string, Variant)>)
    ensures p.Some? <==> e.Detail? && e.text.Some?
    ensures p.Some? ==> p.value.0 == e.text.value
    ensures p.Some? && e.variant.Some? ==> p.value.1 == e.variant.value
    ensures p.Some? && e.variant.None? ==> p.value.1 == Info
  {
    match e
    case NoDetail => None
    case Detail(text, variant) =>
      if text.Some? then Some((text.value, VariantOrDefault(variant))) else None
  }

  /** `ToastProvider`: its `toasts` state, its `timerRef` map and its window listener. */
  class ToastProvider {
    var toasts: seq<Toast>
    var timers: map<ToastId, nat>   // pending `setTimeout`s, with their delay
    var listening: bool             // `onToast` is registered for `app:toast`

    /** Each visible toast has exactly one pending timer, and ids are unique. */
    ghost predicate Valid()
      reads this
    {
      DistinctIds(toasts)
      && timers.Keys == IdsOf(toasts)
      && forall id :: id in timers ==> timers[id] == DismissDelayMs
    }

    /** An id neither a visible toast nor a pending timer uses. */
    predicate IsFresh(id: ToastId)
      reads this
    {
      id !in timers && id !in IdsOf(toasts)
    }

    /** The provider when first rendered, before its effect subscribes. */
    constructor ()
      ensures Valid()
      ensures toasts == [] && timers == map[] && !listening
    {
      toasts := [];
      timers := map[];
      listening := false;
    }

    /** The effect runs: `window.addEventListener('app:toast', onToast)`. */
    method Subscribe()
      modifies this
      ensures listening
      ensures toasts == old(toasts) && timers == old(timers)
    {
      listening := true;
    }

    /** The effect's cleanup: `window.removeEventListener('app:toast', onToast)`. */
    method Unsubscribe()
      modifies this
      ensures !listening
      ensures toasts == old(toasts) && timers == old(timers)
    {
      listening := false;
    }

    /** `show(text, variant)`: append the toast and schedule its dismissal. */
    method Show(text: string, variant: Variant, id: ToastId)
      requires Valid() && IsFresh(id)
      modifies this
      ensures Valid()
      ensures toasts == old(toasts) + [Toast(id, text, variant)]
      ensures timers == old(timers)[id := DismissDelayMs]
      ensures listening == old(listening)
    {
      toasts := toasts + [Toast(id, text, variant)];
      timers := timers[id := DismissDelayMs];
      assert DistinctIds(toasts) by {
        forall i, j | 0 <= i < j < |toasts| ensures toasts[i].id != toasts[j].id {
          if j == |toasts| - 1 {
            assert toasts[i] in old(toasts);
          }
        }
      }
    }

    /**
     * `dismiss(id)`: drop every toast with that id, keeping the others in
     * order, and clear and forget its timer if one is pending. An unknown
     * id changes nothing.
     */
    method Dismiss(id: ToastId)
      modifies this
      ensures toasts == WithoutId(old(toasts), id)
      ensures timers == old(timers) - {id}
      ensures listening == old(listening)
      ensures id !in IdsOf(toasts) && id !in timers
      ensures id !in old(IdsOf(toasts)) && id !in old(timers)
              ==> toasts == old(toasts) && timers == old(timers)
      ensures old(Valid()) ==> Valid()
    {
      ghost var before := toasts;
      toasts := WithoutId(toasts, id);
      if id in timers {
        timers := timers - {id};
      } else {
        assert timers - {id} == timers;
      }
      if id !in IdsOf(before) {
        WithoutAbsentId(before, id);
      }
      if DistinctIds(before) {
        WithoutIdDistinct(before, id);
      }
    }

    /** The timer of toast `id` goes off and calls `dismiss(id)`; only a pending timer can. */
    method Fire(id: ToastId)
      requires id in timers
      modifies this
      ensures toasts == WithoutId(old(toasts), id)
      ensures timers == old(timers) - {id}
      ensures listening == old(listening)
      ensures old(Valid()) ==> Valid() && |toasts| == |old(toasts)| - 1
    {
      if Valid() {
        WithoutPresentId(toasts, id);
      }
      Dismiss(id);
    }

    /** `onToast`: forward a well-formed event to `show`, ignore anything else. */
    method OnToast(e: ToastEvent, id: ToastId)
      requires Valid() && IsFresh(id)
      modifies this
      ensures Valid()
      ensures listening == old(listening)
      ensures ToastPayload(e).None? ==> toasts == old(toasts) && timers == old(timers)
      ensures ToastPayload(e).Some? ==>
        toasts == old(toasts) + [Toast(id, ToastPayload(e).value.0, ToastPayload(e).value.1)]
        && timers == old(timers)[id := DismissDelayMs]
    {
      var p := ToastPayload(e);
      if p.Some? {
        Show(p.value.0, p.value.1, id);
      }
    }

    /** An event dispatched on the window reaches `onToast` only while it is registered. */
    method Dispatch(e: ToastEvent, id: ToastId)
      requires Valid() && IsFresh(id)
      modifies this
      ensures Valid()
      ensures listening == old(listening)
      ensures !listening || ToastPayload(e).None? ==> toasts == old(toasts) && timers == old(timers)
      ensures listening && ToastPayload(e).Some? ==>
        toasts == old(toasts) + [Toast(id, ToastPayload(e).value.0, ToastPayload(e).value.1)]
        && timers == old(timers)[id := DismissDelayMs]
    {
      if listening {
        OnToast(e, id);
      }
    }
  }

  /**
   * `emitToast(text, variant)`: broadcast `{text, variant}` on `app:toast`.
   * It reaches the provider only while the provider listens; otherwise it
   * is dropped.
   */
  method EmitToast(provider: ToastProvider, text: string, variant: Option<Variant>, id: ToastId)
    requires provider.Valid() && provider.IsFresh(id)
    modifies provider
    ensures provider.Valid()
    ensures provider.listening == old(provider.listening)
    ensures !provider.listening ==> provider.toasts == old(provider.toasts) && provider.timers == old(provider.timers)
    ensures provider.listening ==>
      provider.toasts == old(provider.toasts) + [Toast(id, text, VariantOrDefault(variant))]
      && provider.timers == old(provider.timers)[id := DismissDelayMs]
  {
    provider.Dispatch(Detail(Some(text), Some(VariantOrDefault(variant))), id);
  }

  /**
   * `useToast().show(text, variant)`: inside a provider (`ctx` not null) it
   * is the provider's `show`; outside one it is a function that does nothing.
   */
  method UseToastShow(ctx: ToastProvider?, text: string, variant: Option<Variant>, id: ToastId)
    requires ctx != null ==> ctx.Valid() && ctx.IsFresh(id)
    modifies ctx
    ensures ctx != null ==>
      (ctx.Valid()
       && ctx.toasts == old(ctx.toasts) + [Toast(id, text, VariantOrDefault(variant))]
       && ctx.timers == old(ctx.timers)[id := DismissDelayMs]
       && ctx.listening == old(ctx.listening))
  {
    if ctx != null {
      ctx.Show(text, VariantOrDefault(variant), id);
    }
  }
}
