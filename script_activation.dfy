/**
 * The footer script that activates the deferred scripts: a gate listening
 * for the first user interaction (`e`), the collector of marked scripts
 * (`n`), the sequential runner (`c`), the per-tag promoter (`rti`) and the
 * replay of the page lifecycle events (`u`).
 *
 * The document is the list of its `<script>` elements in tree order.
 * `<body>` is the last element of the page, so appending a child to the
 * body puts the script at the end of that list. A script's `key` is its
 * node identity. Network loading is an outside event (`LoadOrError`), and
 * what an executed script does is not modelled.
 */
module ScriptActivation {
  import opened Wrappers

  const Rtscript := "text/rtscript"
  const TextJavascript := "text/javascript"
  const TypeError := "TypeError"

  /** `t`: the window events that open the gate. */
  const GateEvents: seq<string> := ["mouseover", "keydown", "touchmove", "touchstart", "scroll"]
  const GateSet: set<string> := set ev | ev in GateEvents

  /** The events `u` replays, in its order. */
  const LifecycleEvents: seq<string> := ["DOMContentLoaded", "readystatechange", "load", "show", "resize"]

  datatype Script = Script(key: nat, typ: string, src: string, id: string, text: string)

  datatype Target = Window | Document

  /** What the page observably does, in order. */
  datatype Entry =
    | Collected(count: nat)                   // `n()` ran and found `count` marked scripts
    | Inserted(key: nat, marker: nat)         // script `key`, promoted from marker `marker`, was appended to the body
    | Settled(key: nat)                       // load or error of the script the runner waits for
    | Dispatched(target: Target, name: string)
    | Threw(error: string)

  /** The runner suspended on an external script: the steps of `c`, the
      index of the step waiting, and the element whose load/error resumes it. */
  datatype Chain = Chain(steps: seq<Script>, next: nat, awaiting: nat)
  type Pending = c: Chain | c.next < |c.steps| witness Chain([Script(0, "", "", "", "")], 0, 0)

  datatype Page = Page(
    listening: set<string>,
    doc: seq<Script>,
    chain: Option<Pending>,
    log: seq<Entry>,
    /** the key the next created element gets */
    nextKey: nat)

  // -----------------------------------------------------------------------
  // The collector `n`
  // -----------------------------------------------------------------------

  /** The scripts whose `type` attribute is exactly `text/rtscript`, in tree order. */
  function Markers(doc: seq<Script>): (r: seq<Script>)
    ensures forall s :: s in r <==> s in doc && s.typ == Rtscript
  {
    if doc == [] then []
    else
      assert forall s :: s in doc <==> s == doc[0] || s in doc[1..];
      (if doc[0].typ == Rtscript then [doc[0]] else []) + Markers(doc[1..])
  }

  /** The collector keeps document order: it works part by part. */
  lemma {:induction false} MarkersAppend(a: seq<Script>, b: seq<Script>)
    ensures Markers(a + b) == Markers(a) + Markers(b)
  {
    if a == [] {
      assert a + b == b;
    } else {
      assert (a + b)[1..] == a[1..] + b;
      MarkersAppend(a[1..], b);
    }
  }

  lemma MarkersOne(s: Script)
    ensures Markers([s]) == if s.typ == Rtscript then [s] else []
  {
    assert [s][1..] == [];
  }

  /** `parentNode.removeChild(node)`: the node with that identity leaves the document. */
  function RemoveNode(doc: seq<Script>, key: nat): (r: seq<Script>)
    ensures |r| <= |doc|
  {
    if doc == [] then []
    else (if doc[0].key == key then [] else [doc[0]]) + RemoveNode(doc[1..], key)
  }

  lemma {:induction false} RemoveNodeMembers(doc: seq<Script>, key: nat)
    ensures forall s :: s in RemoveNode(doc, key) <==> s in doc && s.key != key
  {
    if doc != [] {
      RemoveNodeMembers(doc[1..], key);
      assert forall s :: s in doc <==> s == doc[0] || s in doc[1..];
    }
  }

  lemma {:induction false} MarkersRemoveNode(doc: seq<Script>, key: nat)
    ensures Markers(RemoveNode(doc, key)) == RemoveNode(Markers(doc), key)
  {
    if doc != [] {
      var t := doc[1..];
      MarkersRemoveNode(t, key);
      var head := if doc[0].key == key then [] else [doc[0]];
      assert RemoveNode(doc, key) == head + RemoveNode(t, key);
      MarkersAppend(head, RemoveNode(t, key));
      var m := if doc[0].typ == Rtscript then [doc[0]] else [];
      assert Markers(doc) == m + Markers(t);
      if m == [] {
        assert Markers(head) == [];
        assert m + Markers(t) == Markers(t);
      } else {
        assert (m + Markers(t))[1..] == Markers(t);
        assert Markers(head) == head;
      }
    }
  }

  // -----------------------------------------------------------------------
  // The promoter `rti`
  // -----------------------------------------------------------------------

  /** The element `rti` creates for a marker: a `text/javascript` script with
      the marker's id; an external marker lends its `src`, an inline one its text. */
  function Promoted(marker: Script, key: nat): Script
  {
    if marker.src != "" then Script(key, TextJavascript, marker.src, marker.id, "")
    else Script(key, TextJavascript, "", marker.id, marker.text)
  }

  /** The document after one promotion: the marker leaves its place and the
      new script, with identity `key`, is appended at the end of the body. */
  function PromoteDoc(doc: seq<Script>, marker: Script, key: nat): seq<Script>
  {
    RemoveNode(doc, marker.key) + [Promoted(marker, key)]
  }

  /** The DOM part of `rti`. */
  function PromoteSpec(p: Page, marker: Script): Page
  {
    p.(doc := PromoteDoc(p.doc, marker, p.nextKey),
       log := p.log + [Inserted(p.nextKey, marker.key)],
       nextKey := p.nextKey + 1)
  }

  /** Node identities are distinct, and the next created element is new. */
  predicate Identities(p: Page)
  {
    && (forall a, b :: 0 <= a < b < |p.doc| ==> p.doc[a].key != p.doc[b].key)
    && (forall s :: s in p.doc ==> s.key < p.nextKey)
  }

  lemma {:induction false} RemoveNodeOrder(doc: seq<Script>, key: nat)
    requires forall a, b :: 0 <= a < b < |doc| ==> doc[a].key != doc[b].key
    ensures forall a, b :: 0 <= a < b < |RemoveNode(doc, key)| ==>
              RemoveNode(doc, key)[a].key != RemoveNode(doc, key)[b].key
  {
    if doc != [] {
      RemoveNodeOrder(doc[1..], key);
      RemoveNodeMembers(doc[1..], key);
      var rest := RemoveNode(doc[1..], key);
      forall s | s in rest ensures s.key != doc[0].key {
        var b :| 0 <= b < |doc[1..]| && doc[1..][b] == s;
        assert doc[b + 1] == s;
      }
    }
  }

  /** Promotion takes the marker out of the document and out of what the
      collector would find, puts a script of another type at the end, and
      keeps node identities distinct. */
  lemma PromoteEffect(p: Page, marker: Script)
    requires Identities(p)
    ensures var q := PromoteSpec(p, marker);
            && q.doc[|q.doc| - 1] == Promoted(marker, p.nextKey)
            && q.doc[|q.doc| - 1].typ == TextJavascript
            && q.doc[|q.doc| - 1].id == marker.id
            && (forall s :: s in q.doc[..|q.doc| - 1] <==> s in p.doc && s.key != marker.key)
            && Markers(q.doc) == RemoveNode(Markers(p.doc), marker.key)
            && Identities(q)
  {
    var q := PromoteSpec(p, marker);
    var rest := RemoveNode(p.doc, marker.key);
    RemoveNodeMembers(p.doc, marker.key);
    assert q.doc[..|q.doc| - 1] == rest;
    MarkersAppend(rest, [Promoted(marker, p.nextKey)]);
    MarkersRemoveNode(p.doc, marker.key);
    PromoteIdentities(p, marker);
  }

  lemma PromoteIdentities(p: Page, marker: Script)
    requires Identities(p)
    ensures Identities(PromoteSpec(p, marker))
  {
    var rest := RemoveNode(p.doc, marker.key);
    RemoveNodeOrder(p.doc, marker.key);
    RemoveNodeMembers(p.doc, marker.key);
    var created := Promoted(marker, p.nextKey);
    var d := rest + [created];
    forall a, b | 0 <= a < b < |d| ensures d[a].key != d[b].key {
      assert d[a] == rest[a];
      if b < |rest| {
        assert d[b] == rest[b];
      } else {
        assert rest[a] in rest;
      }
    }
    forall s | s in d ensures s.key < p.nextKey + 1 {
      if s != created {
        assert s in rest;
      }
    }
  }

  // -----------------------------------------------------------------------
  // The runner `c`, the promoter `rti` and its continuation, the replay `u`
  // -----------------------------------------------------------------------

  /** Window first, then document, for each name in turn. */
  function Broadcast(names: seq<string>): seq<Entry>
  {
    if names == [] then [] else [Dispatched(Window, names[0]), Dispatched(Document, names[0])] + Broadcast(names[1..])
  }

  lemma {:induction false} BroadcastOrder(names: seq<string>)
    ensures |Broadcast(names)| == 2 * |names|
    ensures forall k :: 0 <= k < |names| ==>
              Broadcast(names)[2 * k] == Dispatched(Window, names[k])
              && Broadcast(names)[2 * k + 1] == Dispatched(Document, names[k])
  {
    if names != [] {
      BroadcastOrder(names[1..]);
      forall k | 1 <= k < |names|
        ensures Broadcast(names)[2 * k] == Dispatched(Window, names[k])
        ensures Broadcast(names)[2 * k + 1] == Dispatched(Document, names[k])
      {
        assert Broadcast(names)[2 * k] == Broadcast(names[1..])[2 * (k - 1)];
        assert Broadcast(names)[2 * k + 1] == Broadcast(names[1..])[2 * (k - 1) + 1];
      }
    }
  }

  /** `u`'s ten dispatches. */
  function Lifecycle(): seq<Entry>
  {
    Broadcast(LifecycleEvents)
  }

  /** `c(t, e, n)`: `t[n]` is called; when `t` is empty, `t[0]` is undefined
      and the call throws a TypeError. */
  function RunSpec(p: Page, steps: seq<Script>, i: nat): (r: (Page, bool))
    ensures r.1 <==> i < |steps|
    ensures p.log < r.0.log && r.0.listening == p.listening
    decreases |steps| - i, 2
  {
    if i >= |steps| then (p.(log := p.log + [Threw(TypeError)]), false)
    else (RtiSpec(p, steps, i), true)
  }

  /** `rti(t[i], continuation)`: an external script suspends the runner until
      its load or error; an inline one continues at once. */
  function RtiSpec(p: Page, steps: seq<Script>, i: nat): (r: Page)
    requires i < |steps|
    ensures p.log + [Inserted(p.nextKey, steps[i].key)] <= r.log
    ensures r.listening == p.listening && p.nextKey < r.nextKey
    decreases |steps| - i, 1
  {
    var q := PromoteSpec(p, steps[i]);
    if steps[i].src != "" then q.(chain := Some(Chain(steps, i, p.nextKey)))
    else ContinueSpec(q, steps, i)
  }

  /** The continuation of step `i`: the finaliser `u` after the last step,
      otherwise the runner on the next step. */
  function ContinueSpec(p: Page, steps: seq<Script>, i: nat): (r: Page)
    requires i < |steps|
    ensures p.log < r.log && r.listening == p.listening && p.nextKey <= r.nextKey
    decreases |steps| - i, 0
  {
    if i + 1 == |steps| then p.(log := p.log + Lifecycle())
    else RunSpec(p, steps, i + 1).0
  }

  /** A listener call of the gate: `n()` collects and starts the runner; the
      listeners are removed only when that returned without throwing. */
  function InteractSpec(p: Page, ev: string): (r: (Page, bool))
    ensures !r.1 <==> ev in p.listening && Markers(p.doc) == []
    ensures ev !in p.listening ==> r.0 == p
    ensures ev in p.listening ==> p.log + [Collected(|Markers(p.doc)|)] < r.0.log
    ensures r.0.listening == (if r.1 && ev in p.listening then p.listening - GateSet else p.listening)
  {
    if ev !in p.listening then (p, true)
    else
      var steps := Markers(p.doc);
      var p1 := p.(log := p.log + [Collected(|steps|)]);
      var (q, ok) := RunSpec(p1, steps, 0);
      if ok then (q.(listening := q.listening - GateSet), true) else (q, false)
  }

  /** The browser fires load or error on element `key`: only the element the
      runner waits for has a handler. */
  function SettleSpec(p: Page, key: nat): Page
  {
    if p.chain.Some? && p.chain.value.awaiting == key then
      var c := p.chain.value;
      ContinueSpec(p.(chain := None, log := p.log + [Settled(key)]), c.steps, c.next)
    else p
  }

  /** The page right after the footer script ran: every gate listener added. */
  function Init(doc: seq<Script>, firstKey: nat): Page
  {
    Page(GateSet, doc, None, [], firstKey)
  }

  // -----------------------------------------------------------------------
  // What the runner does, in closed form
  // -----------------------------------------------------------------------

  /** The first step at or after `i` that loads an external file, or `|steps|`. */
  function FirstExternal(steps: seq<Script>, i: nat): (j: nat)
    requires i <= |steps|
    ensures i <= j <= |steps|
    ensures forall l :: i <= l < j ==> steps[l].src == ""
    ensures j < |steps| ==> steps[j].src != ""
    decreases |steps| - i
  {
    if i == |steps| then |steps|
    else if steps[i].src != "" then i
    else FirstExternal(steps, i + 1)
  }

  /** The insertions of steps `i .. i + n - 1`, in order. */
  function Inserts(key: nat, steps: seq<Script>, i: nat, n: nat): (r: seq<Entry>)
    requires i + n <= |steps|
    ensures |r| == n
    decreases n
  {
    if n == 0 then [] else [Inserted(key, steps[i].key)] + Inserts(key + 1, steps, i + 1, n - 1)
  }

  /** The document after steps `i .. i + n - 1` were promoted one by one. */
  function PromoteRun(doc: seq<Script>, steps: seq<Script>, i: nat, n: nat, key: nat): seq<Script>
    requires i + n <= |steps|
    decreases n
  {
    if n == 0 then doc else PromoteRun(PromoteDoc(doc, steps[i], key), steps, i + 1, n - 1, key + 1)
  }

  /** The scripts created for steps `i .. i + n - 1`, in order. */
  function Promotions(steps: seq<Script>, i: nat, n: nat, key: nat): (r: seq<Script>)
    requires i + n <= |steps|
    ensures |r| == n
    decreases n
  {
    if n == 0 then [] else [Promoted(steps[i], key)] + Promotions(steps, i + 1, n - 1, key + 1)
  }

  /** `doc` with every node that has the identity of one of `ms` removed. */
  function Without(doc: seq<Script>, ms: seq<Script>): (r: seq<Script>)
    decreases |ms|
  {
    if ms == [] then doc else Without(RemoveNode(doc, ms[0].key), ms[1..])
  }

  lemma {:induction false} WithoutMembers(doc: seq<Script>, ms: seq<Script>)
    ensures forall s :: s in Without(doc, ms) <==> s in doc && forall j :: 0 <= j < |ms| ==> s.key != ms[j].key
    decreases |ms|
  {
    if ms != [] {
      WithoutMembers(RemoveNode(doc, ms[0].key), ms[1..]);
      RemoveNodeMembers(doc, ms[0].key);
      forall s: Script ensures (forall j :: 0 <= j < |ms| ==> s.key != ms[j].key) <==>
                               s.key != ms[0].key && forall j :: 0 <= j < |ms[1..]| ==> s.key != ms[1..][j].key {
        if s.key != ms[0].key && forall j :: 0 <= j < |ms[1..]| ==> s.key != ms[1..][j].key {
          forall j | 1 <= j < |ms| ensures s.key != ms[j].key {
            assert ms[j] == ms[1..][j - 1];
          }
        }
      }
    }
  }

  /** The `k`-th insertion of a run is script `key + k`, promoted from the
      marker of step `i + k`, and the `k`-th created script is that marker's
      promotion. */
  lemma {:induction false} RunOrder(steps: seq<Script>, i: nat, n: nat, key: nat)
    requires i + n <= |steps|
    ensures forall k :: 0 <= k < n ==> Inserts(key, steps, i, n)[k] == Inserted(key + k, steps[i + k].key)
    ensures forall k :: 0 <= k < n ==> Promotions(steps, i, n, key)[k] == Promoted(steps[i + k], key + k)
    decreases n
  {
    if n > 0 {
      RunOrder(steps, i + 1, n - 1, key + 1);
      PromoteRunStep([], steps, i, n, key);
      forall k | 1 <= k < n
        ensures Inserts(key, steps, i, n)[k] == Inserted(key + k, steps[i + k].key)
        ensures Promotions(steps, i, n, key)[k] == Promoted(steps[i + k], key + k)
      {
        assert Inserts(key, steps, i, n)[k] == Inserts(key + 1, steps, i + 1, n - 1)[k - 1];
        assert Promotions(steps, i, n, key)[k] == Promotions(steps, i + 1, n - 1, key + 1)[k - 1];
      }
    }
  }

  lemma PromoteRunStep(doc: seq<Script>, steps: seq<Script>, i: nat, n: nat, key: nat)
    requires n >= 1 && i + n <= |steps|
    ensures PromoteRun(doc, steps, i, n, key) == PromoteRun(PromoteDoc(doc, steps[i], key), steps, i + 1, n - 1, key + 1)
    ensures Promotions(steps, i, n, key) == [Promoted(steps[i], key)] + Promotions(steps, i + 1, n - 1, key + 1)
    ensures Inserts(key, steps, i, n) == [Inserted(key, steps[i].key)] + Inserts(key + 1, steps, i + 1, n - 1)
  {
  }

  lemma {:induction false} RemoveNodeAppendOther(a: seq<Script>, x: Script, key: nat)
    requires x.key != key
    ensures RemoveNode(a + [x], key) == RemoveNode(a, key) + [x]
  {
    if a == [] {
      assert [x][1..] == [];
    } else {
      assert (a + [x])[0] == a[0] && (a + [x])[1..] == a[1..] + [x];
      RemoveNodeAppendOther(a[1..], x, key);
    }
  }

  lemma WithoutFront(doc: seq<Script>, ms: seq<Script>)
    requires ms != []
    ensures Without(doc, ms) == Without(RemoveNode(doc, ms[0].key), ms[1..])
  {
  }

  lemma {:induction false} WithoutAppendOther(a: seq<Script>, x: Script, ms: seq<Script>)
    requires forall j :: 0 <= j < |ms| ==> x.key != ms[j].key
    ensures Without(a + [x], ms) == Without(a, ms) + [x]
    decreases |ms|
  {
    if ms != [] {
      RemoveNodeAppendOther(a, x, ms[0].key);
      WithoutAppendOther(RemoveNode(a, ms[0].key), x, ms[1..]);
    }
  }

  /** Promoting steps `i .. i + n - 1` one by one, when their markers are
      older than every created script, leaves the document without those
      markers, everything else in its order, followed by the created scripts
      in step order. */
  lemma {:induction false} PromoteRunShape(doc: seq<Script>, steps: seq<Script>, i: nat, n: nat, key: nat)
    requires i + n <= |steps|
    requires forall j :: i <= j < i + n ==> steps[j].key < key
    ensures PromoteRun(doc, steps, i, n, key) == Without(doc, steps[i..i + n]) + Promotions(steps, i, n, key)
    decreases n
  {
    if n == 0 {
      assert steps[i..i] == [];
    } else {
      var x := Promoted(steps[i], key);
      var ms := steps[i + 1..i + n];
      var a := RemoveNode(doc, steps[i].key);
      var rest := Promotions(steps, i + 1, n - 1, key + 1);
      PromoteRunStep(doc, steps, i, n, key);
      PromoteRunShape(a + [x], steps, i + 1, n - 1, key + 1);
      forall j | 0 <= j < |ms| ensures x.key != ms[j].key {
        assert ms[j] == steps[i + 1 + j];
      }
      WithoutAppendOther(a, x, ms);
      WithoutFront(doc, steps[i..i + n]);
      assert steps[i..i + n][1..] == ms;
      assert (Without(a, ms) + [x]) + rest == Without(a, ms) + ([x] + rest);
    }
  }

  /** The runner's continuations: the next step is promoted only once the
      script step `c.next` waits for has fired load or error; a load or error
      of any other element changes nothing. After the last step, that event
      replays the lifecycle and the runner is done. */
  lemma ResumeOnSettle(p: Page, key: nat)
    requires p.chain.Some?
    ensures key != p.chain.value.awaiting ==> SettleSpec(p, key) == p
    ensures var c := p.chain.value;
            key == c.awaiting && c.next + 1 < |c.steps| ==>
              var q := SettleSpec(p, key);
              |q.log| >= |p.log| + 2 &&
              q.log[..|p.log| + 2] == p.log + [Settled(key), Inserted(p.nextKey, c.steps[c.next + 1].key)]
    ensures var c := p.chain.value;
            key == c.awaiting && c.next + 1 == |c.steps| ==>
              SettleSpec(p, key) == p.(chain := None, log := p.log + [Settled(key)] + Lifecycle())
  {
    var c := p.chain.value;
    if key == c.awaiting && c.next + 1 < |c.steps| {
      ResumeNext(p, key);
    }
  }

  /** The awaited script settled and a step follows: the next insertion is
      that step's promotion. */
  lemma ResumeNext(p: Page, key: nat)
    requires p.chain.Some? && key == p.chain.value.awaiting && p.chain.value.next + 1 < |p.chain.value.steps|
    ensures var c := p.chain.value;
            var q := SettleSpec(p, key);
            |q.log| >= |p.log| + 2 &&
            q.log[..|p.log| + 2] == p.log + [Settled(key), Inserted(p.nextKey, c.steps[c.next + 1].key)]
  {
    var c := p.chain.value;
    var p1 := p.(chain := None, log := p.log + [Settled(key)]);
    assert SettleSpec(p, key) == ContinueSpec(p1, c.steps, c.next);
    ContinueRunsNext(p1, c.steps, c.next);
    RtiClosedForm(p1, c.steps, c.next + 1);
    var q := SettleSpec(p, key);
    var j := FirstExternal(c.steps, c.next + 1);
    var n := if j < |c.steps| then j - (c.next + 1) + 1 else |c.steps| - (c.next + 1);
    var ins := Inserts(p.nextKey, c.steps, c.next + 1, n);
    assert q.log == p1.log + ins + (if j < |c.steps| then [] else Lifecycle());
    assert ins[0] == Inserted(p.nextKey, c.steps[c.next + 1].key);
    assert q.log[..|p.log| + 2] == p1.log + [ins[0]];
  }

  /** Proof step: a continuation from step `i` is the runner entered at
      step `i + 1`. */
  lemma ContinueRunsNext(p: Page, steps: seq<Script>, i: nat)
    requires i + 1 < |steps|
    ensures ContinueSpec(p, steps, i) == RtiSpec(p, steps, i + 1)
  {
  }

  /** From step `i` the runner promotes, synchronously and in order, every
      inline step up to and including the first external one and then waits
      for that script; if there is none it promotes the rest and replays the
      lifecycle events once. */
  predicate RunsInClosedForm(p: Page, steps: seq<Script>, i: nat)
    requires i < |steps|
  {
    ClosedForm(p, RtiSpec(p, steps, i), steps, i)
  }

  /** `q` is the page the closed form predicts from `p` at step `i`. */
  predicate ClosedForm(p: Page, q: Page, steps: seq<Script>, i: nat)
    requires i < |steps|
  {
    var j := FirstExternal(steps, i);
    var n := if j < |steps| then j - i + 1 else |steps| - i;
    && q.listening == p.listening
    && q.nextKey == p.nextKey + n
    && q.doc == PromoteRun(p.doc, steps, i, n, p.nextKey)
    && q.log == p.log + Inserts(p.nextKey, steps, i, n) + (if j < |steps| then [] else Lifecycle())
    && q.chain == (if j < |steps| then Some(Chain(steps, j, p.nextKey + n - 1)) else None)
  }

  lemma {:induction false} RtiClosedForm(p: Page, steps: seq<Script>, i: nat)
    requires i < |steps| && p.chain.None?
    ensures RunsInClosedForm(p, steps, i)
    decreases |steps| - i
  {
    if steps[i].src != "" {
      ExternalStep(p, steps, i);
    } else if i + 1 == |steps| {
      LastInlineStep(p, steps, i);
    } else {
      var q0 := PromoteSpec(p, steps[i]);
      RtiClosedForm(q0, steps, i + 1);
      InlineStep(p, steps, i);
    }
  }

  lemma ExternalStep(p: Page, steps: seq<Script>, i: nat)
    requires i < |steps| && steps[i].src != ""
    ensures RunsInClosedForm(p, steps, i)
  {
    assert FirstExternal(steps, i) == i;
    assert Inserts(p.nextKey, steps, i, 1) == [Inserted(p.nextKey, steps[i].key)];
    assert PromoteRun(p.doc, steps, i, 1, p.nextKey) == PromoteDoc(p.doc, steps[i], p.nextKey);
  }

  lemma LastInlineStep(p: Page, steps: seq<Script>, i: nat)
    requires i + 1 == |steps| && steps[i].src == "" && p.chain.None?
    ensures RunsInClosedForm(p, steps, i)
  {
    assert FirstExternal(steps, i) == |steps|;
    assert Inserts(p.nextKey, steps, i, 1) == [Inserted(p.nextKey, steps[i].key)];
    assert PromoteRun(p.doc, steps, i, 1, p.nextKey) == PromoteDoc(p.doc, steps[i], p.nextKey);
  }

  lemma InlineStep(p: Page, steps: seq<Script>, i: nat)
    requires i + 1 < |steps| && steps[i].src == ""
    requires RunsInClosedForm(PromoteSpec(p, steps[i]), steps, i + 1)
    ensures RunsInClosedForm(p, steps, i)
  {
    var q0 := PromoteSpec(p, steps[i]);
    ContinueRunsNext(q0, steps, i);
    ClosedFormShift(p, q0, RtiSpec(q0, steps, i + 1), steps, i);
  }

  /** A promoted inline step adds one insertion in front of what the next
      step's closed form predicts. */
  lemma ClosedFormShift(p: Page, q0: Page, q: Page, steps: seq<Script>, i: nat)
    requires i + 1 < |steps| && steps[i].src == ""
    requires q0.listening == p.listening && q0.nextKey == p.nextKey + 1
    requires q0.doc == PromoteDoc(p.doc, steps[i], p.nextKey)
    requires q0.log == p.log + [Inserted(p.nextKey, steps[i].key)]
    requires ClosedForm(q0, q, steps, i + 1)
    ensures ClosedForm(p, q, steps, i)
  {
    var j := FirstExternal(steps, i);
    assert j == FirstExternal(steps, i + 1);
    var n := if j < |steps| then j - i + 1 else |steps| - i;
    var tail := if j < |steps| then [] else Lifecycle();
    InsertsShift(p.log, p.nextKey, steps, i, n, tail);
    PromoteRunStep(p.doc, steps, i, n, p.nextKey);
  }

  lemma InsertsShift(log: seq<Entry>, key: nat, steps: seq<Script>, i: nat, n: nat, tail: seq<Entry>)
    requires n >= 1 && i + n <= |steps|
    ensures log + [Inserted(key, steps[i].key)] + Inserts(key + 1, steps, i + 1, n - 1) + tail
              == log + Inserts(key, steps, i, n) + tail
  {
    PromoteRunStep([], steps, i, n, key);
  }

  // -----------------------------------------------------------------------
  // Counting activations and replays
  // -----------------------------------------------------------------------

  predicate IsActivation(e: Entry) { e.Collected? && e.count > 0 }
  predicate IsReplay(e: Entry) { e == Dispatched(Window, "DOMContentLoaded") }

  /** How often `n()` found marked scripts. */
  function Activations(log: seq<Entry>): nat
  {
    if log == [] then 0 else (if IsActivation(log[0]) then 1 else 0) + Activations(log[1..])
  }

  /** How often `u` ran. */
  function Replays(log: seq<Entry>): nat
  {
    if log == [] then 0 else (if IsReplay(log[0]) then 1 else 0) + Replays(log[1..])
  }

  lemma {:induction false} CountAppend(a: seq<Entry>, b: seq<Entry>)
    ensures Activations(a + b) == Activations(a) + Activations(b)
    ensures Replays(a + b) == Replays(a) + Replays(b)
  {
    if a == [] {
      assert a + b == b;
    } else {
      assert (a + b)[1..] == a[1..] + b;
      CountAppend(a[1..], b);
    }
  }

  lemma {:induction false} InsertsCount(key: nat, steps: seq<Script>, i: nat, n: nat)
    requires i + n <= |steps|
    ensures Activations(Inserts(key, steps, i, n)) == 0 && Replays(Inserts(key, steps, i, n)) == 0
    decreases n
  {
    if n > 0 {
      InsertsCount(key + 1, steps, i + 1, n - 1);
      CountAppend([Inserted(key, steps[i].key)], Inserts(key + 1, steps, i + 1, n - 1));
    }
  }

  lemma {:induction false} BroadcastCount(names: seq<string>)
    ensures Activations(Broadcast(names)) == 0
    ensures "DOMContentLoaded" !in names ==> Replays(Broadcast(names)) == 0
  {
    if names != [] {
      BroadcastCount(names[1..]);
      var pair := [Dispatched(Window, names[0]), Dispatched(Document, names[0])];
      CountAppend(pair, Broadcast(names[1..]));
      assert pair[1..] == [Dispatched(Document, names[0])];
      assert "DOMContentLoaded" !in names ==> names[0] != "DOMContentLoaded" && "DOMContentLoaded" !in names[1..];
    }
  }

  /** `u` replays the page once: one `DOMContentLoaded` on the window. */
  lemma LifecycleCount()
    ensures Activations(Lifecycle()) == 0 && Replays(Lifecycle()) == 1
  {
    var rest := LifecycleEvents[1..];
    var pair := [Dispatched(Window, "DOMContentLoaded"), Dispatched(Document, "DOMContentLoaded")];
    assert Lifecycle() == pair + Broadcast(rest);
    assert "DOMContentLoaded" !in rest;
    BroadcastCount(rest);
    CountAppend(pair, Broadcast(rest));
    assert pair[1..] == [Dispatched(Document, "DOMContentLoaded")];
  }

  /** The runner from a step either leaves a script pending without having
      replayed, or finishes with exactly one replay; it never collects. */
  lemma RtiCounts(p: Page, steps: seq<Script>, i: nat)
    requires i < |steps| && p.chain.None?
    ensures var q := RtiSpec(p, steps, i);
            && q.listening == p.listening
            && Activations(q.log) == Activations(p.log)
            && Replays(q.log) == Replays(p.log) + (if q.chain.Some? then 0 else 1)
  {
    RtiClosedForm(p, steps, i);
    var j := FirstExternal(steps, i);
    var n := if j < |steps| then j - i + 1 else |steps| - i;
    var tail := if j < |steps| then [] else Lifecycle();
    var ins := Inserts(p.nextKey, steps, i, n);
    assert RtiSpec(p, steps, i).log == p.log + ins + tail;
    assert RtiSpec(p, steps, i).chain.Some? <==> j < |steps|;
    InsertsCount(p.nextKey, steps, i, n);
    LifecycleCount();
    CountAppend(p.log, ins);
    CountAppend(p.log + ins, tail);
  }

  // -----------------------------------------------------------------------
  // One-shot behaviour over any sequence of outside events
  // -----------------------------------------------------------------------

  datatype Event = Interaction(name: string) | LoadOrError(key: nat)

  function Step(p: Page, ev: Event): Page
  {
    match ev
    case Interaction(name) => InteractSpec(p, name).0
    case LoadOrError(key) => SettleSpec(p, key)
  }

  function AfterEvents(p: Page, evs: seq<Event>): Page
    decreases |evs|
  {
    if evs == [] then p else AfterEvents(Step(p, evs[0]), evs[1..])
  }

  /** The gate is armed with nothing done yet, or closed after exactly one
      activation, with the runner either still waiting or finished with one replay. */
  predicate GateInv(p: Page)
  {
    || (p.listening == GateSet && p.chain.None? && Activations(p.log) == 0 && Replays(p.log) == 0)
    || (p.listening == {} && Activations(p.log) == 1 && Replays(p.log) == (if p.chain.Some? then 0 else 1))
  }

  lemma InteractKeepsInv(p: Page, ev: string)
    requires GateInv(p)
    ensures GateInv(InteractSpec(p, ev).0)
  {
    if ev in p.listening {
      var steps := Markers(p.doc);
      var p1 := p.(log := p.log + [Collected(|steps|)]);
      CountAppend(p.log, [Collected(|steps|)]);
      if steps == [] {
        CountAppend(p1.log, [Threw(TypeError)]);
      } else {
        RtiCounts(p1, steps, 0);
        assert GateSet - GateSet == {};
      }
    }
  }

  lemma SettleKeepsInv(p: Page, key: nat)
    requires GateInv(p)
    ensures GateInv(SettleSpec(p, key))
  {
    if p.chain.Some? && p.chain.value.awaiting == key {
      var c := p.chain.value;
      var p1 := p.(chain := None, log := p.log + [Settled(key)]);
      CountAppend(p.log, [Settled(key)]);
      if c.next + 1 == |c.steps| {
        LifecycleCount();
        CountAppend(p1.log, Lifecycle());
      } else {
        RtiCounts(p1, c.steps, c.next + 1);
        ContinueRunsNext(p1, c.steps, c.next);
      }
    }
  }

  lemma {:induction false} AfterEventsKeepsInv(p: Page, evs: seq<Event>)
    requires GateInv(p)
    ensures GateInv(AfterEvents(p, evs))
    decreases |evs|
  {
    if evs != [] {
      if evs[0].Interaction? {
        InteractKeepsInv(p, evs[0].name);
      } else {
        SettleKeepsInv(p, evs[0].key);
      }
      AfterEventsKeepsInv(Step(p, evs[0]), evs[1..]);
    }
  }

  /** Whatever the user and the network do, the marked scripts are collected
      and run at most once, the lifecycle events are replayed at most once,
      and the gate's listeners are gone exactly when an activation happened. */
  lemma AtMostOnce(doc: seq<Script>, firstKey: nat, evs: seq<Event>)
    ensures var q := AfterEvents(Init(doc, firstKey), evs);
            && Activations(q.log) <= 1
            && Replays(q.log) <= Activations(q.log)
            && (q.listening == {} <==> Activations(q.log) == 1)
  {
    assert GateSet != {} by { assert "scroll" in GateSet; }
    AfterEventsKeepsInv(Init(doc, firstKey), evs);
  }

  /** With no marked script on the page the gate is not one-shot: every gate
      event throws in the runner, keeps the listeners and never replays. */
  lemma NoMarkersNotOneShot(p: Page, ev: string)
    requires Markers(p.doc) == [] && ev in p.listening
    ensures InteractSpec(p, ev) == (p.(log := p.log + [Collected(0), Threw(TypeError)]), false)
    ensures InteractSpec(InteractSpec(p, ev).0, ev).0.log
              == p.log + [Collected(0), Threw(TypeError), Collected(0), Threw(TypeError)]
  {
    assert p.log + [Collected(0)] + [Threw(TypeError)] == p.log + [Collected(0), Threw(TypeError)];
    var q := p.(log := p.log + [Collected(0), Threw(TypeError)]);
    assert q.log + [Collected(0)] + [Threw(TypeError)]
        == p.log + [Collected(0), Threw(TypeError), Collected(0), Threw(TypeError)];
  }

  /** When every marked script is inline, one gate event promotes them all in
      document order, replays the lifecycle once and closes the gate. The
      `k`-th insertion is script `p.nextKey + k` for the `k`-th marker; on a
      page with distinct identities the document ends up without any marker,
      everything else kept in order, followed by the promoted scripts in
      marker order. */
  lemma AllInlineActivation(p: Page, ev: string)
    requires ev in p.listening && p.chain.None?
    requires Markers(p.doc) != []
    requires forall k :: 0 <= k < |Markers(p.doc)| ==> Markers(p.doc)[k].src == ""
    ensures var steps := Markers(p.doc);
            var (q, ok) := InteractSpec(p, ev);
            && ok
            && q.listening == p.listening - GateSet
            && q.chain.None?
            && q.log == p.log + [Collected(|steps|)] + Inserts(p.nextKey, steps, 0, |steps|) + Lifecycle()
            && (Identities(p) ==>
                  && q.doc == Without(p.doc, steps) + Promotions(steps, 0, |steps|, p.nextKey)
                  && Markers(q.doc) == [])
  {
    var steps := Markers(p.doc);
    var p1 := p.(log := p.log + [Collected(|steps|)]);
    RtiClosedForm(p1, steps, 0);
    assert FirstExternal(steps, 0) == |steps|;
    assert InteractSpec(p, ev).0.doc == PromoteRun(p.doc, steps, 0, |steps|, p.nextKey);
    if Identities(p) {
      MarkerKeysBelow(p.doc, steps, p.nextKey);
      WholeRunShape(p.doc, steps, p.nextKey);
      NoMarkersLeft(p.doc, steps, p.nextKey);
    }
  }

  lemma WholeRunShape(doc: seq<Script>, steps: seq<Script>, key: nat)
    requires forall j :: 0 <= j < |steps| ==> steps[j].key < key
    ensures PromoteRun(doc, steps, 0, |steps|, key) == Without(doc, steps) + Promotions(steps, 0, |steps|, key)
  {
    assert steps[0..|steps|] == steps;
    PromoteRunShape(doc, steps, 0, |steps|, key);
  }


  lemma MarkerKeysBelow(doc: seq<Script>, steps: seq<Script>, key: nat)
    requires steps == Markers(doc)
    requires forall s :: s in doc ==> s.key < key
    ensures forall j :: 0 <= j < |steps| ==> steps[j].key < key
  {
    forall j | 0 <= j < |steps| ensures steps[j].key < key {
      assert steps[j] in steps;
    }
  }

  /** Removing every marker and appending promoted scripts leaves nothing for
      the collector. */
  lemma NoMarkersLeft(doc: seq<Script>, steps: seq<Script>, key: nat)
    requires steps == Markers(doc)
    ensures Markers(Without(doc, steps) + Promotions(steps, 0, |steps|, key)) == []
  {
    WithoutMarkers(doc, steps);
    PromotionsNotMarkers(steps, key);
    MarkersNone(Without(doc, steps) + Promotions(steps, 0, |steps|, key));
  }

  lemma WithoutMarkers(doc: seq<Script>, steps: seq<Script>)
    requires steps == Markers(doc)
    ensures forall s :: s in Without(doc, steps) ==> s.typ != Rtscript
  {
    WithoutMembers(doc, steps);
  }

  lemma PromotionsNotMarkers(steps: seq<Script>, key: nat)
    ensures forall s :: s in Promotions(steps, 0, |steps|, key) ==> s.typ != Rtscript
  {
    var added := Promotions(steps, 0, |steps|, key);
    RunOrder(steps, 0, |steps|, key);
    forall s | s in added ensures s.typ != Rtscript {
      var k :| 0 <= k < |added| && added[k] == s;
      assert added[k] == Promoted(steps[k], key + k);
    }
  }

  lemma {:induction false} MarkersNone(d: seq<Script>)
    requires forall s :: s in d ==> s.typ != Rtscript
    ensures Markers(d) == []
  {
    if d != [] {
      assert d[0] in d;
      assert forall s :: s in d[1..] ==> s in d;
      MarkersNone(d[1..]);
    }
  }


  // -----------------------------------------------------------------------
  // The footer script as it runs on the page
  // -----------------------------------------------------------------------

  class FooterScripts {
    var listening: set<string>
    var doc: seq<Script>
    var chain: Option<Pending>
    var log: seq<Entry>
    var nextKey: nat

    function State(): Page
      reads this
    {
      Page(listening, doc, chain, log, nextKey)
    }

    /** `t.forEach(... addEventListener(t, e) ...)` */
    constructor (doc0: seq<Script>, firstKey: nat)
      ensures State() == Init(doc0, firstKey)
    {
      listening := {};
      doc := doc0;
      chain := None;
      log := [];
      nextKey := firstKey;
      new;
      for i := 0 to |GateEvents|
        invariant listening == set ev | ev in GateEvents[..i]
        invariant doc == doc0 && chain == None && log == [] && nextKey == firstKey
      {
        assert forall ev :: ev in GateEvents[..i + 1] <==> ev in GateEvents[..i] || ev == GateEvents[i];
        listening := listening + {GateEvents[i]};
      }
      assert GateEvents[..|GateEvents|] == GateEvents;
    }

    /** `e`: runs `n()`; the listeners go only if it did not throw. */
    method Interact(ev: string) returns (ok: bool)
      modifies this
      ensures (State(), ok) == InteractSpec(old(State()), ev)
    {
      if ev !in listening {
        return true;
      }
      var steps := Collect();
      log := log + [Collected(|steps|)];
      ok := Run(steps, 0);
      if ok {
        RemoveListeners();
      }
    }

    method RemoveListeners()
      modifies this
      ensures State() == old(State()).(listening := old(listening) - GateSet)
    {
      for i := 0 to |GateEvents|
        invariant listening == old(listening) - set ev | ev in GateEvents[..i]
        invariant doc == old(doc) && chain == old(chain) && log == old(log) && nextKey == old(nextKey)
      {
        assert forall ev :: ev in GateEvents[..i + 1] <==> ev in GateEvents[..i] || ev == GateEvents[i];
        listening := listening - {GateEvents[i]};
      }
      assert GateEvents[..|GateEvents|] == GateEvents;
    }

    /** The `querySelectorAll("script")` walk of `n`. */
    method Collect() returns (steps: seq<Script>)
      ensures steps == Markers(doc)
    {
      steps := [];
      for i := 0 to |doc|
        invariant steps == Markers(doc[..i])
      {
        assert doc[..i + 1] == doc[..i] + [doc[i]];
        MarkersAppend(doc[..i], [doc[i]]);
        MarkersOne(doc[i]);
        if doc[i].typ == Rtscript {
          steps := steps + [doc[i]];
        }
      }
      assert doc[..|doc|] == doc;
    }

    /** `c(t, e, n)` */
    method Run(steps: seq<Script>, i: nat) returns (ok: bool)
      modifies this
      ensures (State(), ok) == RunSpec(old(State()), steps, i)
      decreases |steps| - i, 2
    {
      if i >= |steps| {
        log := log + [Threw(TypeError)];
        return false;
      }
      Rti(steps, i);
      return true;
    }

    /** `rti(t, e)` */
    method Rti(steps: seq<Script>, i: nat)
      requires i < |steps|
      modifies this
      ensures State() == RtiSpec(old(State()), steps, i)
      decreases |steps| - i, 1
    {
      var marker := steps[i];
      var created := Promoted(marker, nextKey);
      nextKey := nextKey + 1;
      doc := RemoveNode(doc, marker.key);
      doc := doc + [created];
      assert doc == PromoteDoc(old(doc), marker, old(nextKey));
      log := log + [Inserted(created.key, marker.key)];
      if marker.src != "" {
        chain := Some(Chain(steps, i, created.key));
      } else {
        Continue(steps, i);
      }
    }

    /** The continuation `function() { n++; ... }` of step `i`. */
    method Continue(steps: seq<Script>, i: nat)
      requires i < |steps|
      modifies this
      ensures State() == ContinueSpec(old(State()), steps, i)
      decreases |steps| - i, 0
    {
      if i + 1 == |steps| {
        DispatchLifecycle();
      } else {
        var _ := Run(steps, i + 1);
      }
    }

    /** `u` */
    method DispatchLifecycle()
      modifies this
      ensures State() == old(State()).(log := old(log) + Lifecycle())
    {
      log := log + [Dispatched(Window, "DOMContentLoaded"), Dispatched(Document, "DOMContentLoaded")];
      log := log + [Dispatched(Window, "readystatechange"), Dispatched(Document, "readystatechange")];
      log := log + [Dispatched(Window, "load"), Dispatched(Document, "load")];
      log := log + [Dispatched(Window, "show"), Dispatched(Document, "show")];
      log := log + [Dispatched(Window, "resize"), Dispatched(Document, "resize")];
    }

    /** The `onload`/`onerror` handler the runner set on an external script. */
    method LoadOrError(key: nat)
      modifies this
      ensures State() == SettleSpec(old(State()), key)
    {
      if chain.Some? && chain.value.awaiting == key {
        var c := chain.value;
        chain := None;
        log := log + [Settled(key)];
        Continue(c.steps, c.next);
      }
    }
  }
}
