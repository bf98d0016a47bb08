/**
 * The two IntersectionObserver callbacks the footer sets up when
 * `DOMContentLoaded` fires: one gives each iframe its `data-src` as `src`,
 * the other copies the scripts of Twitter and Reddit embeds into runnable
 * scripts. Geometry and timing are the browser's: a batch of entries is an
 * input. Elements are named by their node identity (`nat`).
 */
module LazyLoaders {
  import opened Wrappers

  /** What the callback reads of an `IntersectionObserverEntry`. */
  datatype ObserverEntry = ObserverEntry(target: nat, isIntersecting: bool)

  /** Each target appears once in the batch and is still observed. */
  predicate ProperBatch(observed: set<nat>, entries: seq<ObserverEntry>)
  {
    && (forall k :: 0 <= k < |entries| ==> entries[k].target in observed)
    && (forall a, b :: 0 <= a < b < |entries| ==> entries[a].target != entries[b].target)
  }

  lemma ProperBatchPrefix(observed: set<nat>, entries: seq<ObserverEntry>)
    requires |entries| > 0 && ProperBatch(observed, entries)
    ensures var last := entries[|entries| - 1];
            ProperBatch(observed, entries[..|entries| - 1])
            && forall k :: 0 <= k < |entries| - 1 ==> entries[k].target != last.target
  {
  }

  // -----------------------------------------------------------------------
  // Iframes: `src` from `data-src`
  // -----------------------------------------------------------------------

  /** The observed iframes; each iframe's `data-src` attribute (`None` when
      it is absent); every `src` assignment made, in order. */
  datatype IframeState = IframeState(
    observed: set<nat>,
    dataSrc: map<nat, Option<string>>,
    srcLog: seq<(nat, string)>)

  function DataSrc(st: IframeState, target: nat): Option<string>
  {
    if target in st.dataSrc then st.dataSrc[target] else None
  }

  /** The callback on one entry. */
  function IframeEntry(st: IframeState, e: ObserverEntry): IframeState
  {
    if !e.isIntersecting then st
    else
      var url := DataSrc(st, e.target);
      st.(srcLog := if url.Some? then st.srcLog + [(e.target, url.value)] else st.srcLog,
          observed := st.observed - {e.target})
  }

  /** The callback on a batch, entry by entry. */
  function IframeBatch(st: IframeState, entries: seq<ObserverEntry>): IframeState
  {
    if entries == [] then st
    else IframeEntry(IframeBatch(st, entries[..|entries| - 1]), entries[|entries| - 1])
  }

  /** The values assigned to one iframe's `src`, in order. */
  function AssignedTo(srcLog: seq<(nat, string)>, target: nat): (r: seq<string>)
    ensures |r| <= |srcLog|
  {
    if srcLog == [] then []
    else AssignedTo(srcLog[..|srcLog| - 1], target) + (if srcLog[|srcLog| - 1].0 == target then [srcLog[|srcLog| - 1].1] else [])
  }

  lemma AssignedAppend(srcLog: seq<(nat, string)>, x: (nat, string), target: nat)
    ensures AssignedTo(srcLog + [x], target) == AssignedTo(srcLog, target) + (if x.0 == target then [x.1] else [])
  {
    assert (srcLog + [x])[..|srcLog|] == srcLog;
  }

  /** What one observer pair has assigned to `t` by the time it is in state
      `st`: its `data-src` once it stopped being observed, nothing before. */
  function Expected(st: IframeState, iframes: set<nat>, t: nat): seq<string>
  {
    if t in iframes && t !in st.observed && DataSrc(st, t).Some? then [DataSrc(st, t).value] else []
  }

  /** The observed iframes are among those observed at the start; `data-src`
      does not change; an iframe has been assigned nothing while it is
      observed, and its `data-src` exactly once (when it has one) after. */
  ghost predicate IframeInv(st: IframeState, dataSrc0: map<nat, Option<string>>, iframes: set<nat>)
  {
    && st.dataSrc == dataSrc0
    && st.observed <= iframes
    && forall t :: AssignedTo(st.srcLog, t) == Expected(st, iframes, t)
  }

  /** A proper batch keeps the invariant: every intersecting iframe gets its
      `data-src`, if it has one, exactly when it leaves the observed set, and
      the others keep what they had. */
  lemma {:induction false} IframeBatchKeepsInv(st: IframeState, dataSrc0: map<nat, Option<string>>, iframes: set<nat>, entries: seq<ObserverEntry>)
    requires IframeInv(st, dataSrc0, iframes) && ProperBatch(st.observed, entries)
    ensures IframeInv(IframeBatch(st, entries), dataSrc0, iframes)
    ensures forall t :: t !in st.observed ==> t !in IframeBatch(st, entries).observed
    ensures forall t :: t in IframeBatch(st, entries).observed <==>
              t in st.observed && forall k :: 0 <= k < |entries| && entries[k].target == t ==> !entries[k].isIntersecting
  {
    if entries != [] {
      var init := entries[..|entries| - 1];
      var e := entries[|entries| - 1];
      ProperBatchPrefix(st.observed, entries);
      IframeBatchKeepsInv(st, dataSrc0, iframes, init);
      var mid := IframeBatch(st, init);
      if e.isIntersecting {
        EntryKeepsInv(mid, dataSrc0, iframes, e);
      }
    }
  }

  lemma EntryKeepsInv(mid: IframeState, dataSrc0: map<nat, Option<string>>, iframes: set<nat>, e: ObserverEntry)
    requires IframeInv(mid, dataSrc0, iframes) && e.target in mid.observed && e.isIntersecting
    ensures IframeInv(IframeEntry(mid, e), dataSrc0, iframes)
  {
    var q := IframeEntry(mid, e);
    var url := DataSrc(mid, e.target);
    forall t ensures AssignedTo(q.srcLog, t) == Expected(q, iframes, t) {
      assert DataSrc(q, t) == DataSrc(mid, t);
      if url.Some? {
        AssignedAppend(mid.srcLog, (e.target, url.value), t);
      }
      if t == e.target {
        assert AssignedTo(mid.srcLog, t) == [];
      } else {
        assert AssignedTo(mid.srcLog, t) == Expected(mid, iframes, t);
      }
    }
  }

  /** The browser hands out batches of proper entries, one after another. */
  function IframeBatches(st: IframeState, batches: seq<seq<ObserverEntry>>): IframeState
    decreases |batches|
  {
    if batches == [] then st else IframeBatches(IframeBatch(st, batches[0]), batches[1..])
  }

  predicate ProperBatches(st: IframeState, batches: seq<seq<ObserverEntry>>)
    decreases |batches|
  {
    batches != [] ==>
      ProperBatch(st.observed, batches[0]) && ProperBatches(IframeBatch(st, batches[0]), batches[1..])
  }

  /** Over any number of proper batches of one observer, an iframe has been
      given its `data-src` exactly once when it is no longer observed and has
      one, and nothing otherwise: no `src` is set twice. */
  lemma {:induction false} IframeOneShot(iframes: seq<nat>, dataSrc0: map<nat, Option<string>>, batches: seq<seq<ObserverEntry>>)
    requires ProperBatches(IframeState((set t | t in iframes), dataSrc0, []), batches)
    ensures var q := IframeBatches(IframeState((set t | t in iframes), dataSrc0, []), batches);
            && (forall t :: AssignedTo(q.srcLog, t) ==
                  if t in iframes && t !in q.observed && t in dataSrc0 && dataSrc0[t].Some?
                  then [dataSrc0[t].value] else [])
            && (forall t :: |AssignedTo(q.srcLog, t)| <= 1)
  {
    var st := IframeState((set t | t in iframes), dataSrc0, []);
    var q := IframeBatches(st, batches);
    IframeBatchesKeepInv(st, dataSrc0, st.observed, batches);
    forall t ensures AssignedTo(q.srcLog, t) ==
                  if t in iframes && t !in q.observed && t in dataSrc0 && dataSrc0[t].Some?
                  then [dataSrc0[t].value] else [] {
      assert AssignedTo(q.srcLog, t) == Expected(q, st.observed, t);
    }
  }

  lemma {:induction false} IframeBatchesKeepInv(st: IframeState, dataSrc0: map<nat, Option<string>>, iframes: set<nat>, batches: seq<seq<ObserverEntry>>)
    requires IframeInv(st, dataSrc0, iframes) && ProperBatches(st, batches)
    ensures IframeInv(IframeBatches(st, batches), dataSrc0, iframes)
    decreases |batches|
  {
    if batches != [] {
      IframeBatchKeepsInv(st, dataSrc0, iframes, batches[0]);
      IframeBatchesKeepInv(IframeBatch(st, batches[0]), dataSrc0, iframes, batches[1..]);
    }
  }

  /** The one-shot promise holds per observer pair. The listener that creates
      the observers runs on every `DOMContentLoaded` the document sees, and the
      footer's replay dispatches that event on the document a second time: a
      second observer starts out observing every iframe again and sets the
      `src` of an iframe the first one has already handled. */
  lemma SecondObserverAssignsAgain(iframes: seq<nat>, dataSrc0: map<nat, Option<string>>, t: nat, url: string)
    requires t in iframes && t in dataSrc0 && dataSrc0[t] == Some(url)
    ensures var init := IframeState((set x | x in iframes), dataSrc0, []);
            var first := IframeBatch(init, [ObserverEntry(t, true)]);
            var second := IframeBatch(init.(srcLog := first.srcLog), [ObserverEntry(t, true)]);
            && t !in first.observed
            && AssignedTo(first.srcLog, t) == [url]
            && AssignedTo(second.srcLog, t) == [url, url]
  {
    var init := IframeState((set x | x in iframes), dataSrc0, []);
    var e := ObserverEntry(t, true);
    BatchOfOne(init, e);
    var first := IframeBatch(init, [e]);
    assert DataSrc(init, t) == Some(url);
    assert first.srcLog == [(t, url)];
    assert AssignedTo([(t, url)], t) == [url] by {
      assert [(t, url)][..0] == [];
    }
    var second := IframeBatch(init.(srcLog := first.srcLog), [e]);
    BatchOfOne(init.(srcLog := first.srcLog), e);
    assert second.srcLog == [(t, url)] + [(t, url)];
    AssignedAppend([(t, url)], (t, url), t);
  }

  /** The callback itself does not look at the observed set: a batch that
      holds one intersecting iframe twice assigns its `src` twice. */
  lemma RepeatedEntryAssignsTwice(st: IframeState, t: nat, url: string)
    requires DataSrc(st, t) == Some(url)
    ensures IframeBatch(st, [ObserverEntry(t, true), ObserverEntry(t, true)]).srcLog
              == st.srcLog + [(t, url), (t, url)]
  {
    var e := ObserverEntry(t, true);
    var es := [e, e];
    var first := IframeEntry(st, e);
    assert IframeBatch(st, es[..1]) == first by {
      assert es[..1][..0] == [];
    }
    assert first.srcLog == st.srcLog + [(t, url)];
    assert DataSrc(first, t) == Some(url);
    assert IframeBatch(st, es) == IframeEntry(first, e);
  }

  lemma BatchOfOne(st: IframeState, e: ObserverEntry)
    ensures IframeBatch(st, [e]) == IframeEntry(st, e)
  {
    assert [e][..0] == [];
  }

  class IframeObserver {
    var observed: set<nat>
    var dataSrc: map<nat, Option<string>>
    var srcLog: seq<(nat, string)>

    function State(): IframeState
      reads this
    {
      IframeState(observed, dataSrc, srcLog)
    }

    /** `new IntersectionObserver(...)` and `observe` on every iframe. */
    constructor (iframes: seq<nat>, dataSrc0: map<nat, Option<string>>)
      ensures State() == IframeState((set t | t in iframes), dataSrc0, [])
    {
      observed := {};
      dataSrc := dataSrc0;
      srcLog := [];
      new;
      for i := 0 to |iframes|
        invariant observed == set t | t in iframes[..i]
        invariant dataSrc == dataSrc0 && srcLog == []
      {
        assert forall t :: t in iframes[..i + 1] <==> t in iframes[..i] || t == iframes[i];
        observed := observed + {iframes[i]};
      }
      assert iframes[..|iframes|] == iframes;
    }

    /** The callback: `src = data-src` when the attribute exists, then `unobserve`. */
    method Callback(entries: seq<ObserverEntry>)
      modifies this
      ensures State() == IframeBatch(old(State()), entries)
    {
      for i := 0 to |entries|
        invariant State() == IframeBatch(old(State()), entries[..i])
      {
        assert entries[..i + 1][..i] == entries[..i];
        var entry := entries[i];
        if entry.isIntersecting {
          var targetUrl := if entry.target in dataSrc then dataSrc[entry.target] else None;
          if targetUrl.Some? {
            srcLog := srcLog + [(entry.target, targetUrl.value)];
          }
          observed := observed - {entry.target};
        }
      }
      assert entries[..|entries|] == entries;
    }
  }

  // -----------------------------------------------------------------------
  // Twitter and Reddit embeds: their scripts copied into runnable ones
  // -----------------------------------------------------------------------

  /** A script element inside an embed: its `type` attribute ("" when absent)
      and its `src` property. */
  datatype EmbedScript = EmbedScript(typ: string, src: string)

  /** The observed embed containers and the script elements under each
      container, in tree order. */
  datatype EmbedState = EmbedState(
    observed: set<nat>,
    scripts: map<nat, seq<EmbedScript>>)

  function ScriptsOf(st: EmbedState, target: nat): seq<EmbedScript>
  {
    if target in st.scripts then st.scripts[target] else []
  }

  /** The scripts the callback creates for a snapshot: one untyped script per
      element, with the same `src`, in the same order. */
  function Copies(s: seq<EmbedScript>): (r: seq<EmbedScript>)
    ensures |r| == |s|
    ensures forall k :: 0 <= k < |s| ==> r[k].src == s[k].src && r[k].typ == ""
  {
    if s == [] then [] else Copies(s[..|s| - 1]) + [EmbedScript("", s[|s| - 1].src)]
  }

  function EmbedEntry(st: EmbedState, e: ObserverEntry): EmbedState
  {
    if !e.isIntersecting then st
    else
      var snapshot := ScriptsOf(st, e.target);
      EmbedState(st.observed - {e.target},
                 if snapshot == [] then st.scripts else st.scripts[e.target := snapshot + Copies(snapshot)])
  }

  function EmbedBatch(st: EmbedState, entries: seq<ObserverEntry>): EmbedState
  {
    if entries == [] then st
    else EmbedEntry(EmbedBatch(st, entries[..|entries| - 1]), entries[|entries| - 1])
  }

  /** Every container is either still observed with its scripts as rendered,
      or no longer observed with one untyped copy of each rendered script
      appended after them. */
  predicate EmbedInv(st: EmbedState, original: map<nat, seq<EmbedScript>>, containers: set<nat>)
  {
    forall c :: c in containers ==>
      var o := if c in original then original[c] else [];
      (c in st.observed && ScriptsOf(st, c) == o) || (c !in st.observed && ScriptsOf(st, c) == o + Copies(o))
  }

  lemma {:induction false} EmbedBatchKeepsInv(st: EmbedState, original: map<nat, seq<EmbedScript>>, containers: set<nat>, entries: seq<ObserverEntry>)
    requires EmbedInv(st, original, containers) && st.observed <= containers
    requires ProperBatch(st.observed, entries)
    ensures EmbedInv(EmbedBatch(st, entries), original, containers)
    ensures EmbedBatch(st, entries).observed <= st.observed
    ensures forall t :: t in EmbedBatch(st, entries).observed <==> t in st.observed && !InView(entries, t)
  {
    EmbedBatchUnobserves(st, entries);
    if entries != [] {
      var init := entries[..|entries| - 1];
      var e := entries[|entries| - 1];
      ProperBatchPrefix(st.observed, entries);
      EmbedBatchKeepsInv(st, original, containers, init);
      var mid := EmbedBatch(st, init);
      if e.isIntersecting {
        assert e.target in mid.observed by {
          EmbedBatchObserved(st, init, e.target);
        }
      }
      EmbedEntryKeepsInv(mid, original, containers, e);
    }
  }

  /** One entry keeps the invariant: an intersecting embed still observed gets
      its copies as it leaves the observed set. */
  lemma EmbedEntryKeepsInv(mid: EmbedState, original: map<nat, seq<EmbedScript>>, containers: set<nat>, e: ObserverEntry)
    requires EmbedInv(mid, original, containers)
    requires e.isIntersecting ==> e.target in mid.observed
    ensures EmbedInv(EmbedEntry(mid, e), original, containers)
  {
  }

  /** Some entry of the batch reports `t` in view. */
  predicate InView(entries: seq<ObserverEntry>, t: nat)
  {
    exists k :: 0 <= k < |entries| && entries[k].target == t && entries[k].isIntersecting
  }

  /** A batch unobserves exactly the embeds it reports in view. */
  lemma {:induction false} EmbedBatchUnobserves(st: EmbedState, entries: seq<ObserverEntry>)
    ensures forall t :: t in EmbedBatch(st, entries).observed <==> t in st.observed && !InView(entries, t)
  {
    if entries != [] {
      var init := entries[..|entries| - 1];
      var e := entries[|entries| - 1];
      EmbedBatchUnobserves(st, init);
      forall t ensures InView(entries, t) <==> InView(init, t) || (e.target == t && e.isIntersecting) {
        if InView(init, t) {
          var k :| 0 <= k < |init| && init[k].target == t && init[k].isIntersecting;
          assert entries[k] == init[k];
        }
        if InView(entries, t) {
          var k :| 0 <= k < |entries| && entries[k].target == t && entries[k].isIntersecting;
          if k < |init| {
            assert init[k] == entries[k];
          }
        }
      }
    }
  }

  /** A target that no entry of the batch mentions stays observed. */
  lemma {:induction false} EmbedBatchObserved(st: EmbedState, entries: seq<ObserverEntry>, t: nat)
    requires t in st.observed
    requires forall k :: 0 <= k < |entries| ==> entries[k].target != t
    ensures t in EmbedBatch(st, entries).observed
  {
    if entries != [] {
      EmbedBatchObserved(st, entries[..|entries| - 1], t);
    }
  }

  function EmbedBatches(st: EmbedState, batches: seq<seq<ObserverEntry>>): EmbedState
    decreases |batches|
  {
    if batches == [] then st else EmbedBatches(EmbedBatch(st, batches[0]), batches[1..])
  }

  predicate ProperEmbedBatches(st: EmbedState, batches: seq<seq<ObserverEntry>>)
    decreases |batches|
  {
    batches != [] ==>
      ProperBatch(st.observed, batches[0]) && ProperEmbedBatches(EmbedBatch(st, batches[0]), batches[1..])
  }

  /** Some entry of some batch reports `t` in view. */
  predicate Reached(batches: seq<seq<ObserverEntry>>, t: nat)
  {
    exists b, k :: 0 <= b < |batches| && 0 <= k < |batches[b]| && batches[b][k].target == t && batches[b][k].isIntersecting
  }

  lemma ReachedFront(batches: seq<seq<ObserverEntry>>, t: nat)
    requires batches != []
    ensures Reached(batches, t) <==>
              (exists k :: 0 <= k < |batches[0]| && batches[0][k].target == t && batches[0][k].isIntersecting)
              || Reached(batches[1..], t)
  {
    if Reached(batches, t) {
      var b, k :| 0 <= b < |batches| && 0 <= k < |batches[b]| && batches[b][k].target == t && batches[b][k].isIntersecting;
      if b > 0 {
        assert batches[1..][b - 1] == batches[b];
      }
    }
    if Reached(batches[1..], t) {
      var b, k :| 0 <= b < |batches[1..]| && 0 <= k < |batches[1..][b]| && batches[1..][b][k].target == t && batches[1..][b][k].isIntersecting;
      assert batches[b + 1] == batches[1..][b];
    }
  }

  /** Over any number of proper batches the invariant holds, and an embed is
      still observed exactly when no entry has reported it in view. */
  lemma {:induction false} EmbedBatchesKeepInv(st: EmbedState, original: map<nat, seq<EmbedScript>>, containers: set<nat>, batches: seq<seq<ObserverEntry>>)
    requires EmbedInv(st, original, containers) && st.observed <= containers
    requires ProperEmbedBatches(st, batches)
    ensures EmbedInv(EmbedBatches(st, batches), original, containers)
    ensures forall t :: t in EmbedBatches(st, batches).observed <==> t in st.observed && !Reached(batches, t)
    decreases |batches|
  {
    if batches != [] {
      var mid := EmbedBatch(st, batches[0]);
      EmbedBatchKeepsInv(st, original, containers, batches[0]);
      EmbedBatchesKeepInv(mid, original, containers, batches[1..]);
      forall t ensures t in EmbedBatches(st, batches).observed <==> t in st.observed && !Reached(batches, t) {
        ReachedFront(batches, t);
      }
    } else {
      assert forall t :: !Reached(batches, t);
    }
  }

  /** Over any proper batches, an embed that some entry has reported in view
      holds its rendered scripts followed by exactly one runnable copy of each;
      any other embed still holds its rendered scripts and is still observed. */
  lemma EmbedOneShot(containers: seq<nat>, original: map<nat, seq<EmbedScript>>, batches: seq<seq<ObserverEntry>>)
    requires ProperEmbedBatches(EmbedState((set c | c in containers), original), batches)
    ensures var q := EmbedBatches(EmbedState((set c | c in containers), original), batches);
            forall c :: c in containers ==>
              var o := if c in original then original[c] else [];
              && (c in q.observed <==> !Reached(batches, c))
              && (Reached(batches, c) ==> ScriptsOf(q, c) == o + Copies(o))
              && (!Reached(batches, c) ==> ScriptsOf(q, c) == o)
  {
    var st := EmbedState((set c | c in containers), original);
    EmbedBatchesKeepInv(st, original, (set c | c in containers), batches);
  }

  class EmbedObserver {
    var observed: set<nat>
    var scripts: map<nat, seq<EmbedScript>>

    function State(): EmbedState
      reads this
    {
      EmbedState(observed, scripts)
    }

    /** `observe` on every Twitter embed, then every Reddit embed. */
    constructor (containers: seq<nat>, scripts0: map<nat, seq<EmbedScript>>)
      ensures State() == EmbedState((set c | c in containers), scripts0)
    {
      observed := {};
      scripts := scripts0;
      new;
      for i := 0 to |containers|
        invariant observed == set c | c in containers[..i]
        invariant scripts == scripts0
      {
        assert forall c :: c in containers[..i + 1] <==> c in containers[..i] || c == containers[i];
        observed := observed + {containers[i]};
      }
      assert containers[..|containers|] == containers;
    }

    /** The callback: every entry of the batch in turn. */
    method Callback(entries: seq<ObserverEntry>)
      modifies this
      ensures State() == EmbedBatch(old(State()), entries)
    {
      for i := 0 to |entries|
        invariant State() == EmbedBatch(old(State()), entries[..i])
      {
        assert entries[..i + 1][..i] == entries[..i];
        Visit(entries[i]);
      }
      assert entries[..|entries|] == entries;
    }

    /** One entry: for an intersecting embed, one new script per script found
        in it, appended to the embed; then `unobserve`. */
    method Visit(entry: ObserverEntry)
      modifies this
      ensures State() == EmbedEntry(old(State()), entry)
    {
      if entry.isIntersecting {
        var target := entry.target;
        var scriptElements := if target in scripts then scripts[target] else [];
        AppendCopies(target, scriptElements);
        observed := observed - {target};
      }
    }

    /** The inner loop: each script of the snapshot lends its `src` to a new
        script appended to the same embed. */
    method AppendCopies(target: nat, scriptElements: seq<EmbedScript>)
      requires scriptElements == if target in scripts then scripts[target] else []
      modifies this
      ensures observed == old(observed)
      ensures scripts == if scriptElements == [] then old(scripts)
                         else old(scripts)[target := scriptElements + Copies(scriptElements)]
    {
      for j := 0 to |scriptElements|
        invariant observed == old(observed)
        invariant j == 0 ==> scripts == old(scripts)
        invariant j > 0 ==> scripts == old(scripts)[target := scriptElements + Copies(scriptElements[..j])]
      {
        assert scriptElements[..j + 1][..j] == scriptElements[..j];
        assert Copies(scriptElements[..j + 1]) == Copies(scriptElements[..j]) + [EmbedScript("", scriptElements[j].src)];
        assert target in old(scripts);
        if j == 0 {
          assert scriptElements + Copies(scriptElements[..0]) == scriptElements;
        }
        var current := if target in scripts then scripts[target] else [];
        assert current == scriptElements + Copies(scriptElements[..j]);
        scripts := scripts[target := current + [EmbedScript("", scriptElements[j].src)]];
        assert current + [EmbedScript("", scriptElements[j].src)] == scriptElements + Copies(scriptElements[..j + 1]);
        assert scripts == old(scripts)[target := scriptElements + Copies(scriptElements[..j + 1])];
      }
      assert scriptElements[..|scriptElements|] == scriptElements;
    }
  }
}
