/**
 * The footer script of the stylesheet gate (`s_i_e`, `s_i_e_e`, `s_i`,
 * `s_i_rti`): `rt-optimized-stylesheet` links are handed to `loadCSS` at
 * once, `rt-optimized-onevent-stylesheet` links on the first interaction.
 *
 * `loadCSS` is a library outside the plugin; the model records the href of
 * each call and nothing else, and the links of the page never change (the
 * gate does not touch `rel`). The JavaScript engine's call-stack limit is a
 * parameter, `budget`: how many further nested calls of `s_i_e_e` fit
 * before the engine throws a RangeError.
 */
module StyleActivation {
  const OnEventRel := "rt-optimized-onevent-stylesheet"
  const OptimizedRel := "rt-optimized-stylesheet"

  /** `s_i_e`: the window events that open the stylesheet gate. */
  const StyleGateEvents: seq<string> := ["mousemove", "keydown", "touchmove", "touchstart", "scroll"]
  const StyleGateSet: set<string> := set ev | ev in StyleGateEvents

  /** A `<link>` element: its `rel` attribute and its `href` property. */
  datatype Link = Link(rel: string, href: string)

  datatype StyleState = StyleState(listening: set<string>, links: seq<Link>, loaded: seq<string>)

  /** The hrefs of the links whose `rel` is exactly `rel`, in tree order. */
  function HrefsWithRel(links: seq<Link>, rel: string): (r: seq<string>)
    ensures |r| <= |links|
  {
    if links == [] then []
    else (if links[0].rel == rel then [links[0].href] else []) + HrefsWithRel(links[1..], rel)
  }

  lemma {:induction false} HrefsAppend(a: seq<Link>, b: seq<Link>, rel: string)
    ensures HrefsWithRel(a + b, rel) == HrefsWithRel(a, rel) + HrefsWithRel(b, rel)
  {
    if a == [] {
      assert a + b == b;
    } else {
      var h := if a[0].rel == rel then [a[0].href] else [];
      assert (a + b)[0] == a[0];
      assert (a + b)[1..] == a[1..] + b;
      assert HrefsWithRel(a + b, rel) == h + HrefsWithRel(a[1..] + b, rel);
      HrefsAppend(a[1..], b, rel);
      assert HrefsWithRel(a, rel) == h + HrefsWithRel(a[1..], rel);
    }
  }

  function OnEventHrefs(links: seq<Link>): seq<string>
  {
    HrefsWithRel(links, OnEventRel)
  }

  /** `x` written `n` times. */
  function Repeat(x: seq<string>, n: nat): seq<string>
  {
    if n == 0 then [] else x + Repeat(x, n - 1)
  }

  function FirstEmpty(hs: seq<string>): (k: nat)
    requires "" in hs
    ensures k < |hs| && hs[k] == ""
    ensures forall j :: 0 <= j < k ==> hs[j] != ""
  {
    if hs[0] == "" then 0
    else
      assert "" in hs[1..];
      FirstEmpty(hs[1..]) + 1
  }

  /** What one activation `s_i_e_e()` hands to `loadCSS`, and whether it
      returns: without an empty href, every on-event href once, in tree order;
      with one, the hrefs up to the first empty one over and over, once per
      nested call that fits on the stack, and then a RangeError. */
  function GateLoads(hs: seq<string>, budget: nat): (seq<string>, bool)
  {
    if "" !in hs then (hs, true)
    else (Repeat(hs[..FirstEmpty(hs) + 1], budget + 1), false)
  }

  /** The page right after the footer script ran: listeners added, and every
      `rt-optimized-stylesheet` link already handed to `loadCSS`. */
  function StyleInit(links: seq<Link>): StyleState
  {
    StyleState(StyleGateSet, links, HrefsWithRel(links, OptimizedRel))
  }

  /** A window event: only a gate event reaches `s_i_e_e`; the listeners go
      only if it returned. */
  function StyleInteract(st: StyleState, ev: string, budget: nat): (StyleState, bool)
  {
    if ev !in st.listening then (st, true)
    else
      var (loads, ok) := GateLoads(OnEventHrefs(st.links), budget);
      (st.(loaded := st.loaded + loads,
           listening := if ok then st.listening - StyleGateSet else st.listening), ok)
  }

  // -----------------------------------------------------------------------
  // Over any sequence of window events
  // -----------------------------------------------------------------------

  datatype WindowEvent = WindowEvent(name: string, budget: nat)

  function AfterWindowEvents(st: StyleState, evs: seq<WindowEvent>): StyleState
    decreases |evs|
  {
    if evs == [] then st
    else AfterWindowEvents(StyleInteract(st, evs[0].name, evs[0].budget).0, evs[1..])
  }

  /** Without an empty href the gate is one-shot: whatever happens, the page is
      either untouched or has loaded every on-event stylesheet exactly once,
      after the immediate ones, and listens no more. */
  lemma {:induction false} StyleGateOneShot(st: StyleState, evs: seq<WindowEvent>)
    requires "" !in OnEventHrefs(st.links)
    requires st == StyleInit(st.links)
             || st == StyleInit(st.links).(listening := {}, loaded := HrefsWithRel(st.links, OptimizedRel) + OnEventHrefs(st.links))
    ensures var q := AfterWindowEvents(st, evs);
            || q == StyleInit(st.links)
            || q == StyleInit(st.links).(listening := {}, loaded := HrefsWithRel(st.links, OptimizedRel) + OnEventHrefs(st.links))
    decreases |evs|
  {
    if evs != [] {
      var next := StyleInteract(st, evs[0].name, evs[0].budget).0;
      assert StyleGateSet - StyleGateSet == {};
      assert next.links == st.links;
      StyleGateOneShot(next, evs[1..]);
    }
  }

  /** With an on-event link whose href is empty the gate never closes: every
      gate event hands the hrefs up to that link to `loadCSS` once per nested
      call that fits on the stack, then throws, and the listeners stay. */
  lemma {:induction false} EmptyHrefNeverCloses(st: StyleState, evs: seq<WindowEvent>)
    requires "" in OnEventHrefs(st.links) && st.listening == StyleGateSet
    ensures var q := AfterWindowEvents(st, evs);
            q.listening == StyleGateSet && q.links == st.links && st.loaded <= q.loaded
    decreases |evs|
  {
    if evs != [] {
      EmptyHrefNeverCloses(StyleInteract(st, evs[0].name, evs[0].budget).0, evs[1..]);
    }
  }

  function Occurrences(s: seq<string>, h: string): nat
  {
    if s == [] then 0 else (if s[0] == h then 1 else 0) + Occurrences(s[1..], h)
  }

  lemma {:induction false} OccurrencesAppend(a: seq<string>, b: seq<string>, h: string)
    ensures Occurrences(a + b, h) == Occurrences(a, h) + Occurrences(b, h)
  {
    if a == [] {
      assert a + b == b;
    } else {
      assert (a + b)[1..] == a[1..] + b;
      OccurrencesAppend(a[1..], b, h);
    }
  }

  lemma {:induction false} OccurrencesRepeat(x: seq<string>, n: nat, h: string)
    ensures Occurrences(Repeat(x, n), h) == n * Occurrences(x, h)
    decreases n
  {
    if n > 0 {
      OccurrencesRepeat(x, n - 1, h);
      OccurrencesAppend(x, Repeat(x, n - 1), h);
    }
  }

  lemma {:induction false} OccurrencesAbsent(s: seq<string>, h: string)
    ensures h !in s <==> Occurrences(s, h) == 0
  {
    if s != [] {
      OccurrencesAbsent(s[1..], h);
      assert s == [s[0]] + s[1..];
    }
  }

  /** In one activation that meets an empty href, each href up to and
      including it is handed to `loadCSS` `budget + 1` times as often as it
      occurs there (once by the listener's own call, once per re-entry), and
      no href that occurs only after it is ever loaded. */
  lemma EmptyHrefLoadsRepeat(hs: seq<string>, budget: nat, h: string)
    requires "" in hs
    ensures var loads := GateLoads(hs, budget).0;
            var upTo := hs[..FirstEmpty(hs) + 1];
            && Occurrences(loads, h) == (budget + 1) * Occurrences(upTo, h)
            && (h !in upTo ==> h !in loads)
  {
    var upTo := hs[..FirstEmpty(hs) + 1];
    OccurrencesRepeat(upTo, budget + 1, h);
    OccurrencesAbsent(upTo, h);
    OccurrencesAbsent(GateLoads(hs, budget).0, h);
  }

  // -----------------------------------------------------------------------
  // The gate as it runs on the page
  // -----------------------------------------------------------------------

  class StyleGate {
    var listening: set<string>
    var links: seq<Link>
    var loaded: seq<string>

    function State(): StyleState
      reads this
    {
      StyleState(listening, links, loaded)
    }

    /** The listener loop over `s_i_e`, then the immediately invoked function
        that loads the `rt-optimized-stylesheet` links. */
    constructor (links0: seq<Link>)
      ensures State() == StyleInit(links0)
    {
      listening := {};
      links := links0;
      loaded := [];
      new;
      for i := 0 to |StyleGateEvents|
        invariant listening == set ev | ev in StyleGateEvents[..i]
        invariant links == links0 && loaded == []
      {
        assert forall ev :: ev in StyleGateEvents[..i + 1] <==> ev in StyleGateEvents[..i] || ev == StyleGateEvents[i];
        listening := listening + {StyleGateEvents[i]};
      }
      assert StyleGateEvents[..|StyleGateEvents|] == StyleGateEvents;
      for i := 0 to |links|
        invariant listening == StyleGateSet && links == links0
        invariant loaded == HrefsWithRel(links[..i], OptimizedRel)
      {
        assert links[..i + 1] == links[..i] + [links[i]];
        HrefsAppend(links[..i], [links[i]], OptimizedRel);
        if links[i].rel == OptimizedRel {
          loaded := loaded + [links[i].href];
        }
      }
      assert links[..|links|] == links;
    }

    /** A window event reaching the gate's listener, if it is one of its events. */
    method Interact(ev: string, budget: nat) returns (ok: bool)
      modifies this
      ensures (State(), ok) == StyleInteract(old(State()), ev, budget)
    {
      if ev !in listening {
        return true;
      }
      ok := SiEe(budget);
    }

    /** `s_i_e_e` */
    method SiEe(budget: nat) returns (ok: bool)
      modifies this
      ensures links == old(links)
      ensures (loaded, ok) == (old(loaded) + GateLoads(OnEventHrefs(links), budget).0, GateLoads(OnEventHrefs(links), budget).1)
      ensures listening == if ok then old(listening) - StyleGateSet else old(listening)
      decreases budget, 3
    {
      ok := Si(budget);
      if ok {
        for i := 0 to |StyleGateEvents|
          invariant listening == old(listening) - set ev | ev in StyleGateEvents[..i]
          invariant links == old(links) && loaded == old(loaded) + OnEventHrefs(links)
        {
          assert forall ev :: ev in StyleGateEvents[..i + 1] <==> ev in StyleGateEvents[..i] || ev == StyleGateEvents[i];
          listening := listening - {StyleGateEvents[i]};
        }
        assert StyleGateEvents[..|StyleGateEvents|] == StyleGateEvents;
      }
    }

    /** `s_i`: the walk over the links; an exception in `s_i_rti` ends it. */
    method Si(budget: nat) returns (ok: bool)
      modifies this
      ensures links == old(links) && listening == old(listening)
      ensures (loaded, ok) == (old(loaded) + GateLoads(OnEventHrefs(links), budget).0, GateLoads(OnEventHrefs(links), budget).1)
      decreases budget, 2
    {
      var linkList := links;
      for i := 0 to |linkList|
        invariant links == linkList == old(links) && listening == old(listening)
        invariant loaded == old(loaded) + OnEventHrefs(linkList[..i])
        invariant "" !in OnEventHrefs(linkList[..i])
      {
        var link := linkList[i];
        assert linkList[..i + 1] == linkList[..i] + [link];
        HrefsAppend(linkList[..i], [link], OnEventRel);
        HrefsOfOne(link, OnEventRel);
        ok := SiVisit(link, budget);
        if !ok {
          SiStopsAtEmpty(old(loaded), linkList, i, budget, loaded);
          return;
        }
      }
      assert linkList[..|linkList|] == linkList;
      return true;
    }

    /** The `forEach` callback of `s_i`: only an on-event link reaches `s_i_rti`. */
    method SiVisit(link: Link, budget: nat) returns (ok: bool)
      requires link in links
      modifies this
      ensures links == old(links) && listening == old(listening)
      ensures ok <==> !(link.rel == OnEventRel && link.href == "")
      ensures loaded == old(loaded) + HrefsWithRel([link], OnEventRel)
                        + (if !ok && budget > 0 then GateLoads(OnEventHrefs(links), budget - 1).0 else [])
      decreases budget, 1
    {
      if link.rel == OnEventRel {
        ok := SiRti(link, budget);
      } else {
        ok := true;
      }
    }

    /** `s_i_rti`: `loadCSS(href)`, and for an empty href `s_i_e_e()` again;
        `s_i` calls it only on the page's on-event links. Since the links do
        not change, a nested activation meets the same empty href and never
        returns normally. */
    method SiRti(link: Link, budget: nat) returns (ok: bool)
      requires link in links && link.rel == OnEventRel
      modifies this
      ensures links == old(links) && listening == old(listening)
      ensures ok <==> link.href != ""
      ensures loaded == old(loaded) + [link.href]
                        + (if link.href == "" && budget > 0 then GateLoads(OnEventHrefs(links), budget - 1).0 else [])
      decreases budget, 0
    {
      loaded := loaded + [link.href];
      if link.href != "" {
        return true;
      }
      if budget == 0 {
        return false;
      }
      HrefOfMember(links, link, OnEventRel);
      ok := SiEe(budget - 1);
    }
  }

  /** The href of a link with the relation is among the hrefs collected for it. */
  lemma {:induction false} HrefOfMember(links: seq<Link>, link: Link, rel: string)
    requires link in links && link.rel == rel
    ensures link.href in HrefsWithRel(links, rel)
  {
    if links[0] != link {
      HrefOfMember(links[1..], link, rel);
    }
  }

  lemma HrefsOfOne(link: Link, rel: string)
    ensures HrefsWithRel([link], rel) == if link.rel == rel then [link.href] else []
  {
    assert [link][1..] == [];
  }

  /** Proof step: when the walk stops at the first on-event link with an
      empty href, what it loaded is what the activation loads. */
  lemma SiStopsAtEmpty(start: seq<string>, links: seq<Link>, i: nat, budget: nat, final: seq<string>)
    requires i < |links| && links[i].rel == OnEventRel && links[i].href == ""
    requires "" !in OnEventHrefs(links[..i])
    requires final == start + OnEventHrefs(links[..i]) + HrefsWithRel([links[i]], OnEventRel)
                      + (if budget > 0 then GateLoads(OnEventHrefs(links), budget - 1).0 else [])
    ensures final == start + GateLoads(OnEventHrefs(links), budget).0
    ensures !GateLoads(OnEventHrefs(links), budget).1
  {
    HrefsOfOne(links[i], OnEventRel);
    GateLoadsAtEmpty(links, i, budget);
    var nested := if budget > 0 then GateLoads(OnEventHrefs(links), budget - 1).0 else [];
    assert start + OnEventHrefs(links[..i]) + [""] + nested == start + (OnEventHrefs(links[..i]) + [""] + nested);
  }

  /** At the first on-event link with an empty href, one activation is the
      hrefs walked so far, that href, and what the nested activation loads. */
  lemma GateLoadsAtEmpty(links: seq<Link>, i: nat, budget: nat)
    requires i < |links| && links[i].rel == OnEventRel && links[i].href == ""
    requires "" !in OnEventHrefs(links[..i])
    ensures var hs := OnEventHrefs(links);
            && GateLoads(hs, budget).0
                 == OnEventHrefs(links[..i]) + [""] + (if budget == 0 then [] else GateLoads(hs, budget - 1).0)
            && !GateLoads(hs, budget).1
            && (budget > 0 ==> !GateLoads(hs, budget - 1).1)
  {
    EmptyAt(links, i);
    var upTo := OnEventHrefs(links[..i]) + [""];
    assert Repeat(upTo, budget + 1) == upTo + Repeat(upTo, budget);
  }

  /** The first on-event link with an empty href ends the walk: what the walk
      loaded so far, that href, and the nested activations make up the
      repetition `GateLoads` describes. */
  lemma EmptyAt(links: seq<Link>, i: nat)
    requires i < |links| && links[i].rel == OnEventRel && links[i].href == ""
    requires "" !in OnEventHrefs(links[..i])
    ensures var hs := OnEventHrefs(links);
            && "" in hs
            && hs[..FirstEmpty(hs) + 1] == OnEventHrefs(links[..i]) + [""]
  {
    var before := OnEventHrefs(links[..i]);
    assert links == links[..i] + [links[i]] + links[i + 1..];
    HrefsAppend(links[..i] + [links[i]], links[i + 1..], OnEventRel);
    HrefsAppend(links[..i], [links[i]], OnEventRel);
    var hs := OnEventHrefs(links);
    assert hs == before + [""] + OnEventHrefs(links[i + 1..]);
    assert hs[|before|] == "";
    assert forall j :: 0 <= j < |before| ==> hs[j] == before[j];
    var k := FirstEmpty(hs);
    assert k == |before|;
    assert hs[..k + 1] == before + [""];
  }
}
