/**
 * A model of the UI rules in the portfolio page's script.js, with the DOM
 * replaced by integers, strings, sequences and sets.
 *
 * The page wires browser events to small pieces of state: the active
 * navigation link, the scroll throttle, the staggered reveal timers, the
 * konami-code buffer, the mouse trail, the contact-form checks, and the
 * mobile menu with its keyboard shortcuts. Each piece is a section of this
 * module. State the script updates in place is a class; rules it computes
 * are functions, each paired with the lemmas that say what it means.
 */
module Portfolio {

  datatype Option<T> = None | Some(value: T)

  // ------------------------------------------------------------------
  // Bounded buffers shared by the konami detector and the mouse trail
  // ------------------------------------------------------------------

  /** The last `n` items of `s`, or all of `s` when it is shorter. */
  function Recent<T>(s: seq<T>, n: nat): seq<T>
  {
    if |s| <= n then s else s[|s| - n..]
  }

  /** `buf.push(x)` followed by one `buf.shift()` when the array has grown past `cap`. */
  function PushDropOldest<T>(buf: seq<T>, x: T, cap: nat): seq<T>
  {
    var pushed := buf + [x];
    if |pushed| > cap then pushed[1..] else pushed
  }

  /** Pushing onto the window of the most recent `cap` items and dropping the
      oldest gives the window of the most recent `cap` items of the longer
      history: nothing but the oldest item is ever lost, and order is kept. */
  lemma PushDropOldestKeepsRecent<T>(h: seq<T>, x: T, cap: nat)
    ensures PushDropOldest(Recent(h, cap), x, cap) == Recent(h + [x], cap)
    ensures |Recent(h + [x], cap)| <= cap
  {
  }

  // ------------------------------------------------------------------
  // Active navigation link (updateActiveNavLink)
  // ------------------------------------------------------------------

  type SectionId = string

  /** A `<section>` element: its id and its layout box (offsetTop, offsetHeight). */
  datatype Section = Section(id: SectionId, top: int, height: int)

  /** The classifier looks 100px below the scroll offset. */
  const ProbeBias: int := 100

  /** The section's vertical extent contains the probe: top <= probe < top + height. */
  predicate Covers(s: Section, probe: int)
  {
    s.top <= probe < s.top + s.height
  }

  /** Index of the last section, in document order, that covers the probe. */
  function LastMatch(sections: seq<Section>, probe: int): (r: Option<nat>)
    ensures r.None? <==> forall i :: 0 <= i < |sections| ==> !Covers(sections[i], probe)
    ensures r.Some? ==> r.value < |sections| && Covers(sections[r.value], probe)
    ensures r.Some? ==> forall j :: r.value < j < |sections| ==> !Covers(sections[j], probe)
  {
    if |sections| == 0 then None
    else if Covers(sections[|sections| - 1], probe) then Some(|sections| - 1)
    else LastMatch(sections[..|sections| - 1], probe)
  }

  /** The set of active nav links after one pass over `sections`. Every match
      clears all links and activates its own, so the last match decides; no
      match leaves the state as it was. */
  function ActiveAfter(active: set<SectionId>, links: set<SectionId>, sections: seq<Section>, scrollY: int): set<SectionId>
  {
    match LastMatch(sections, scrollY + ProbeBias)
    case None => active
    case Some(i) => (active - links) + (if sections[i].id in links then {sections[i].id} else {})
  }

  /** What one classification pass does to the active links. */
  lemma ActivePassOutcome(active: set<SectionId>, links: set<SectionId>, sections: seq<Section>, scrollY: int)
    requires active <= links
    ensures (forall i :: 0 <= i < |sections| ==> !Covers(sections[i], scrollY + ProbeBias)) ==>
              ActiveAfter(active, links, sections, scrollY) == active
    ensures forall i ::
              (0 <= i < |sections| && Covers(sections[i], scrollY + ProbeBias) &&
               forall j :: i < j < |sections| ==> !Covers(sections[j], scrollY + ProbeBias)) ==>
              ActiveAfter(active, links, sections, scrollY) ==
                (if sections[i].id in links then {sections[i].id} else {})
    ensures ActiveAfter(active, links, sections, scrollY) <= links
    ensures |active| <= 1 ==> |ActiveAfter(active, links, sections, scrollY)| <= 1
  {
  }

  /** The nav links (`.nav-link`, identified by the section id their href
      targets) and the subset of them that carries the `active` class. */
  class NavHighlighter {
    const links: set<SectionId>
    var active: set<SectionId>

    ghost predicate Valid()
      reads this
    {
      active <= links
    }

    constructor (links: set<SectionId>, active: set<SectionId>)
      requires active <= links
      ensures Valid() && this.links == links && this.active == active
    {
      this.links := links;
      this.active := active;
    }

    /** One pass of updateActiveNavLink over the sections in document order. */
    method UpdateActiveNavLink(sections: seq<Section>, scrollY: int)
      requires Valid()
      modifies this
      ensures Valid()
      ensures active == ActiveAfter(old(active), links, sections, scrollY)
    {
      var probe := scrollY + ProbeBias;
      for i := 0 to |sections|
        invariant Valid()
        invariant active == ActiveAfter(old(active), links, sections[..i], scrollY)
      {
        var section := sections[i];
        assert sections[..i + 1][..i] == sections[..i];
        if probe >= section.top && probe < section.top + section.height {
          active := active - links;
          if section.id in links {
            active := active + {section.id};
          }
        }
      }
      assert sections[..|sections|] == sections;
    }
  }

  // ------------------------------------------------------------------
  // Reveal scheduler (animateOnScroll and the IntersectionObserver callback)
  // ------------------------------------------------------------------

  /** An opaque handle for a `.scroll-animate` element. */
  type ElementId = nat

  /** A pending `setTimeout` that will add the `animate` class to `target`. */
  datatype Timer = Timer(target: ElementId, delay: nat)

  /** One position of a reveal batch: the element and whether the pass schedules it. */
  datatype Candidate = Candidate(target: ElementId, due: bool)

  /** A `.scroll-animate` element with its getBoundingClientRect().top. */
  datatype Revealable = Revealable(id: ElementId, top: int)

  /** One IntersectionObserverEntry as the callback sees it. */
  datatype ObserverEntry = ObserverEntry(target: ElementId, isIntersecting: bool)

  /** Delay step between consecutive positions of a batch, in milliseconds. */
  const StaggerStep: nat := 100

  /** An element is revealed once its top is this far above the viewport's bottom. */
  const RevealMargin: int := 150

  /** The timers a pass appends: position `i` of the batch, if due, gets delay `i * 100`. */
  function Stagger(cs: seq<Candidate>): seq<Timer>
  {
    if |cs| == 0 then []
    else
      var last := |cs| - 1;
      Stagger(cs[..last]) + (if cs[last].due then [Timer(cs[last].target, last * StaggerStep)] else [])
  }

  /** The scroll path's batch: every element in list order, due when top < innerHeight - 150. */
  function ScrollCandidates(elements: seq<Revealable>, innerHeight: int): seq<Candidate>
  {
    seq(|elements|, i requires 0 <= i < |elements| =>
      Candidate(elements[i].id, elements[i].top < innerHeight - RevealMargin))
  }

  /** The observer path's batch: every entry in delivery order, due when intersecting. */
  function ObserverCandidates(entries: seq<ObserverEntry>): seq<Candidate>
  {
    seq(|entries|, i requires 0 <= i < |entries| => Candidate(entries[i].target, entries[i].isIntersecting))
  }

  /** Exactly the due positions are scheduled, each at delay position * 100, and nothing else is. */
  lemma {:induction false} StaggerExact(cs: seq<Candidate>)
    ensures forall i :: 0 <= i < |cs| ==> (Timer(cs[i].target, i * StaggerStep) in Stagger(cs) <==> cs[i].due)
    ensures forall t :: t in Stagger(cs) ==>
              exists i :: 0 <= i < |cs| && cs[i].due && t == Timer(cs[i].target, i * StaggerStep)
  {
    if |cs| > 0 {
      var last := |cs| - 1;
      var init := cs[..last];
      StaggerExact(init);
      StaggerDelaysBelow(init);
      forall i | 0 <= i < |cs|
        ensures Timer(cs[i].target, i * StaggerStep) in Stagger(cs) <==> cs[i].due
      {
        if i < last {
          assert init[i] == cs[i];
          assert Timer(cs[i].target, i * StaggerStep) != Timer(cs[last].target, last * StaggerStep);
        } else {
          assert Timer(cs[i].target, i * StaggerStep) !in Stagger(init);
        }
      }
      forall t | t in Stagger(cs)
        ensures exists i :: 0 <= i < |cs| && cs[i].due && t == Timer(cs[i].target, i * StaggerStep)
      {
        if t in Stagger(init) {
          var i :| 0 <= i < |init| && init[i].due && t == Timer(init[i].target, i * StaggerStep);
          assert cs[i] == init[i];
        } else {
          assert t == Timer(cs[last].target, last * StaggerStep);
        }
      }
    }
  }

  /** Every timer of a batch of n positions has delay below n * 100. */
  lemma {:induction false} StaggerDelaysBelow(cs: seq<Candidate>)
    ensures forall t :: t in Stagger(cs) ==> t.delay < |cs| * StaggerStep
  {
    if |cs| > 0 {
      StaggerDelaysBelow(cs[..|cs| - 1]);
    }
  }

  /** Scheduled delays strictly increase with position in the batch. */
  lemma {:induction false} StaggerIncreasing(cs: seq<Candidate>)
    ensures forall a, b :: 0 <= a < b < |Stagger(cs)| ==> Stagger(cs)[a].delay < Stagger(cs)[b].delay
  {
    if |cs| > 0 {
      var init := cs[..|cs| - 1];
      StaggerIncreasing(init);
      StaggerDelaysBelow(init);
      var r := Stagger(cs);
      forall a, b | 0 <= a < b < |r|
        ensures r[a].delay < r[b].delay
      {
        if b >= |Stagger(init)| {
          assert r[a] in Stagger(init);
        } else {
          assert r[a] == Stagger(init)[a] && r[b] == Stagger(init)[b];
        }
      }
    }
  }

  /** A batch in which every position is due schedules all of them at 0, 100, 200, ... */
  lemma {:induction false} StaggerAllDue(cs: seq<Candidate>)
    requires forall i :: 0 <= i < |cs| ==> cs[i].due
    ensures |Stagger(cs)| == |cs|
    ensures forall i :: 0 <= i < |cs| ==> Stagger(cs)[i] == Timer(cs[i].target, i * StaggerStep)
  {
    if |cs| > 0 {
      var init := cs[..|cs| - 1];
      StaggerAllDue(init);
      forall i | 0 <= i < |cs|
        ensures Stagger(cs)[i] == Timer(cs[i].target, i * StaggerStep)
      {
        if i < |cs| - 1 { assert init[i] == cs[i]; }
      }
    }
  }

  /** Scroll path: element `i` of the list gets a timer, at delay i * 100, exactly
      when its top is strictly above innerHeight - 150; no other timer is made. */
  lemma ScrollScheduleExact(elements: seq<Revealable>, innerHeight: int)
    ensures forall i :: 0 <= i < |elements| ==>
              (Timer(elements[i].id, i * StaggerStep) in Stagger(ScrollCandidates(elements, innerHeight)) <==>
               elements[i].top < innerHeight - RevealMargin)
    ensures forall t :: t in Stagger(ScrollCandidates(elements, innerHeight)) ==>
              exists i :: 0 <= i < |elements| && elements[i].top < innerHeight - RevealMargin &&
                          t == Timer(elements[i].id, i * StaggerStep)
  {
    var cs := ScrollCandidates(elements, innerHeight);
    StaggerExact(cs);
    assert forall i :: 0 <= i < |elements| ==>
             cs[i] == Candidate(elements[i].id, elements[i].top < innerHeight - RevealMargin);
    forall t | t in Stagger(cs)
      ensures exists i :: 0 <= i < |elements| && elements[i].top < innerHeight - RevealMargin &&
                          t == Timer(elements[i].id, i * StaggerStep)
    {
      var i :| 0 <= i < |cs| && cs[i].due && t == Timer(cs[i].target, i * StaggerStep);
      assert elements[i].top < innerHeight - RevealMargin;
    }
  }

  /** Observer path: only intersecting entries get a timer, each at delay
      (its position in the batch) * 100. */
  lemma ObserverScheduleExact(entries: seq<ObserverEntry>)
    ensures forall i :: 0 <= i < |entries| ==>
              (Timer(entries[i].target, i * StaggerStep) in Stagger(ObserverCandidates(entries)) <==>
               entries[i].isIntersecting)
    ensures forall t :: t in Stagger(ObserverCandidates(entries)) ==>
              exists i :: 0 <= i < |entries| && entries[i].isIntersecting &&
                          t == Timer(entries[i].target, i * StaggerStep)
  {
    var cs := ObserverCandidates(entries);
    StaggerExact(cs);
    assert forall i :: 0 <= i < |entries| ==> cs[i] == Candidate(entries[i].target, entries[i].isIntersecting);
    forall t | t in Stagger(cs)
      ensures exists i :: 0 <= i < |entries| && entries[i].isIntersecting &&
                          t == Timer(entries[i].target, i * StaggerStep)
    {
      var i :| 0 <= i < |cs| && cs[i].due && t == Timer(cs[i].target, i * StaggerStep);
      assert entries[i].isIntersecting;
    }
  }

  /** The `animate` classes added so far and the reveal timers not yet fired. */
  class Revealer {
    var animated: set<ElementId>
    var timers: seq<Timer>

    constructor ()
      ensures animated == {} && timers == []
    {
      animated := {};
      timers := [];
    }

    /** animateOnScroll: one timer per element whose top is above innerHeight - 150.
        Elements that are already animated are scheduled again. */
    method AnimateOnScroll(elements: seq<Revealable>, innerHeight: int)
      modifies this
      ensures timers == old(timers) + Stagger(ScrollCandidates(elements, innerHeight))
      ensures animated == old(animated)
    {
      ghost var cs := ScrollCandidates(elements, innerHeight);
      for index := 0 to |elements|
        invariant timers == old(timers) + Stagger(cs[..index])
        invariant animated == old(animated)
      {
        var element := elements[index];
        assert cs[..index + 1][..index] == cs[..index];
        if element.top < innerHeight - RevealMargin {
          timers := timers + [Timer(element.id, index * StaggerStep)];
        }
      }
      assert cs[..|elements|] == cs;
    }

    /** The IntersectionObserver callback: one timer per intersecting entry,
        keyed by its position in the batch. */
    method OnIntersection(entries: seq<ObserverEntry>)
      modifies this
      ensures timers == old(timers) + Stagger(ObserverCandidates(entries))
      ensures animated == old(animated)
    {
      ghost var cs := ObserverCandidates(entries);
      for index := 0 to |entries|
        invariant timers == old(timers) + Stagger(cs[..index])
        invariant animated == old(animated)
      {
        var entry := entries[index];
        assert cs[..index + 1][..index] == cs[..index];
        if entry.isIntersecting {
          timers := timers + [Timer(entry.target, index * StaggerStep)];
        }
      }
      assert cs[..|entries|] == cs;
    }

    /** The host fires pending timer `k`: `classList.add("animate")` on its target. */
    method FireTimer(k: nat)
      requires k < |timers|
      modifies this
      ensures animated == old(animated) + {old(timers)[k].target}
      ensures old(animated) <= animated
      ensures old(timers)[k].target in old(animated) ==> animated == old(animated)
      ensures timers == old(timers)[..k] + old(timers)[k + 1..]
    {
      animated := animated + {timers[k].target};
      timers := timers[..k] + timers[k + 1..];
    }
  }

  // ------------------------------------------------------------------
  // Scroll throttle (ticking / handleScroll) and the frame's three passes
  // ------------------------------------------------------------------

  /** The throttle's state: the `ticking` flag, animation-frame requests not
      yet served, and how many times the frame callback has run its passes. */
  datatype Throttle = Throttle(ticking: bool, frameRequests: nat, passes: nat)

  datatype ScrollEvent = Notify | Frame

  /** At most one frame is ever pending, and one is pending exactly while ticking. */
  predicate ThrottleInv(t: Throttle)
  {
    t.frameRequests <= 1 && (t.frameRequests == 1 <==> t.ticking)
  }

  /** handleScroll: request a frame and set `ticking`, unless already ticking. */
  function AfterNotify(t: Throttle): Throttle
  {
    if t.ticking then t else Throttle(true, t.frameRequests + 1, t.passes)
  }

  /** The browser serves a pending frame request: the callback runs the passes
      once and clears `ticking`. With no request pending there is nothing to run. */
  function AfterFrame(t: Throttle): Throttle
  {
    if t.frameRequests == 0 then t else Throttle(false, t.frameRequests - 1, t.passes + 1)
  }

  function Step(t: Throttle, e: ScrollEvent): Throttle
  {
    match e
    case Notify => AfterNotify(t)
    case Frame => AfterFrame(t)
  }

  /** The throttle after a sequence of scroll notifications and frames. */
  function Run(t: Throttle, events: seq<ScrollEvent>): Throttle
    decreases |events|
  {
    if |events| == 0 then t else Run(Step(t, events[0]), events[1..])
  }

  function Notifies(n: nat): seq<ScrollEvent>
  {
    seq(n, _ => Notify)
  }

  function CountOf(events: seq<ScrollEvent>, e: ScrollEvent): nat
  {
    if |events| == 0 then 0 else (if events[0] == e then 1 else 0) + CountOf(events[1..], e)
  }

  /** Each single step keeps the invariant and does what handleScroll and its frame promise. */
  lemma StepFacts(t: Throttle)
    requires ThrottleInv(t)
    ensures ThrottleInv(AfterNotify(t)) && ThrottleInv(AfterFrame(t))
    ensures t.ticking ==> AfterNotify(t) == t
    ensures !t.ticking ==> AfterNotify(t) == Throttle(true, 1, t.passes)
    ensures t.ticking ==> AfterFrame(t) == Throttle(false, 0, t.passes + 1)
    ensures !t.ticking ==> AfterFrame(t) == t
  {
  }

  /** Any sequence of events keeps at most one frame pending, pending iff ticking. */
  lemma {:induction false} RunKeepsInv(t: Throttle, events: seq<ScrollEvent>)
    requires ThrottleInv(t)
    ensures ThrottleInv(Run(t, events))
    decreases |events|
  {
    if |events| > 0 {
      StepFacts(t);
      RunKeepsInv(Step(t, events[0]), events[1..]);
    }
  }

  /** Passes never outnumber frames, and passes plus pending requests never
      outnumber the notifications that asked for them. */
  lemma {:induction false} RunCountsPasses(t: Throttle, events: seq<ScrollEvent>)
    requires ThrottleInv(t)
    ensures Run(t, events).passes <= t.passes + CountOf(events, Frame)
    ensures Run(t, events).passes + Run(t, events).frameRequests <= t.passes + t.frameRequests + CountOf(events, Notify)
    decreases |events|
  {
    if |events| > 0 {
      StepFacts(t);
      RunCountsPasses(Step(t, events[0]), events[1..]);
    }
  }

  /** Notifications while a frame is pending are absorbed. */
  lemma {:induction false} NotifiesWhileTicking(t: Throttle, n: nat, rest: seq<ScrollEvent>)
    requires t.ticking
    ensures Run(t, Notifies(n) + rest) == Run(t, rest)
  {
    if n > 0 {
      assert Notifies(n) + rest == [Notify] + (Notifies(n - 1) + rest);
      NotifiesWhileTicking(t, n - 1, rest);
    } else {
      assert Notifies(n) + rest == rest;
    }
  }

  /** A burst of n >= 1 notifications followed by one frame runs the passes exactly once. */
  lemma BurstThenFrame(t: Throttle, n: nat)
    requires ThrottleInv(t) && !t.ticking && n >= 1
    ensures Run(t, Notifies(n) + [Frame]) == Throttle(false, 0, t.passes + 1)
  {
    var t1 := AfterNotify(t);
    assert Notifies(n) + [Frame] == [Notify] + (Notifies(n - 1) + [Frame]);
    NotifiesWhileTicking(t1, n - 1, [Frame]);
  }

  /** What the browser gives a frame to work on: the layout sampled when it fires. */
  datatype Layout = Layout(scrollY: int, innerHeight: int, sections: seq<Section>, revealables: seq<Revealable>)

  /** The navbar switches to its scrolled style once scrollY passes 50. */
  const NavbarThreshold: int := 50

  /** The scroll listener: the `ticking` flag, the frame requests it makes, the
      navbar's scrolled style, and the two components the frame updates. */
  class ScrollHandler {
    var ticking: bool
    var frameRequests: nat
    var passes: nat
    var navbarScrolled: bool
    const nav: NavHighlighter
    const revealer: Revealer

    function State(): Throttle
      reads this
    {
      Throttle(ticking, frameRequests, passes)
    }

    ghost predicate Valid()
      reads this, nav
    {
      ThrottleInv(State()) && nav.Valid()
    }

    constructor (nav: NavHighlighter, revealer: Revealer)
      requires nav.Valid()
      ensures Valid() && State() == Throttle(false, 0, 0)
      ensures this.nav == nav && this.revealer == revealer
    {
      this.nav := nav;
      this.revealer := revealer;
      ticking := false;
      frameRequests := 0;
      passes := 0;
      navbarScrolled := false;
    }

    /** The three passes: updateActiveNavLink, updateNavbarBackground,
        animateOnScroll, all on the layout of the moment they run. */
    method RunPasses(layout: Layout)
      requires Valid()
      modifies this, nav, revealer
      ensures Valid() && State() == old(State())
      ensures nav.active == ActiveAfter(old(nav.active), nav.links, layout.sections, layout.scrollY)
      ensures navbarScrolled <==> layout.scrollY > NavbarThreshold
      ensures revealer.timers == old(revealer.timers) + Stagger(ScrollCandidates(layout.revealables, layout.innerHeight))
      ensures revealer.animated == old(revealer.animated)
    {
      nav.UpdateActiveNavLink(layout.sections, layout.scrollY);
      navbarScrolled := layout.scrollY > NavbarThreshold;
      revealer.AnimateOnScroll(layout.revealables, layout.innerHeight);
    }

    /** handleScroll. */
    method Notify()
      requires Valid()
      modifies this
      ensures Valid() && State() == AfterNotify(old(State()))
      ensures navbarScrolled == old(navbarScrolled)
    {
      if !ticking {
        frameRequests := frameRequests + 1;
        ticking := true;
      }
    }

    /** The browser serves the pending animation-frame request, if any. */
    method FireFrame(layout: Layout)
      requires Valid()
      modifies this, nav, revealer
      ensures Valid() && State() == AfterFrame(old(State()))
      ensures old(frameRequests) == 0 ==>
                navbarScrolled == old(navbarScrolled) && unchanged(nav) && unchanged(revealer)
      ensures old(frameRequests) > 0 ==>
                nav.active == ActiveAfter(old(nav.active), nav.links, layout.sections, layout.scrollY) &&
                (navbarScrolled <==> layout.scrollY > NavbarThreshold) &&
                revealer.timers == old(revealer.timers) + Stagger(ScrollCandidates(layout.revealables, layout.innerHeight)) &&
                revealer.animated == old(revealer.animated)
    {
      if frameRequests > 0 {
        RunPasses(layout);
        frameRequests := frameRequests - 1;
        ticking := false;
        passes := passes + 1;
      }
    }
  }

  // ------------------------------------------------------------------
  // Konami code detector
  // ------------------------------------------------------------------

  const KonamiSequence: seq<string> :=
    ["ArrowUp", "ArrowUp", "ArrowDown", "ArrowDown", "ArrowLeft",
     "ArrowRight", "ArrowLeft", "ArrowRight", "KeyB", "KeyA"]

  /** `Array.prototype.join(",")` on an array of strings. */
  function Join(xs: seq<string>): string
  {
    if |xs| == 0 then "" else if |xs| == 1 then xs[0] else xs[0] + "," + Join(xs[1..])
  }

  predicate CommaFree(xs: seq<string>)
  {
    forall i :: 0 <= i < |xs| ==> ',' !in xs[i]
  }

  /** On non-empty lists of comma-free strings, comparing joins is comparing lists. */
  lemma {:induction false} JoinInjective(a: seq<string>, b: seq<string>)
    requires a != [] && b != [] && CommaFree(a) && CommaFree(b)
    requires Join(a) == Join(b)
    ensures a == b
  {
    var j := Join(a);
    var a0, b0 := a[0], b[0];
    assert j[..|a0|] == a0 && j[..|b0|] == b0;
    assert |a| > 1 ==> j[|a0|] == ',';
    assert |b| > 1 ==> j[|b0|] == ',';
    assert |a0| == |b0|;
    assert a0 == b0;
    if |a| > 1 && |b| > 1 {
      assert Join(a[1..]) == j[|a0| + 1..] == Join(b[1..]);
      JoinInjective(a[1..], b[1..]);
      assert a == [a0] + a[1..] && b == [b0] + b[1..];
    }
  }

  /** One keydown: push, drop the oldest past ten codes, and on a match fire and reset. */
  function KonamiStep(buffer: seq<string>, code: string): (seq<string>, bool)
  {
    var pushed := PushDropOldest(buffer, code, |KonamiSequence|);
    if Join(pushed) == Join(KonamiSequence) then ([], true) else (pushed, false)
  }

  lemma KonamiSequenceCommaFree()
    ensures CommaFree(KonamiSequence)
  {
  }

  /** With key codes free of commas, a keydown fires exactly when the ten most
      recent codes since the last reset are the konami sequence; it then empties
      the buffer, and otherwise the buffer is those most recent codes. */
  lemma KonamiStepMeaning(sinceReset: seq<string>, code: string)
    requires CommaFree(sinceReset) && ',' !in code
    ensures var window := Recent(sinceReset + [code], |KonamiSequence|);
            KonamiStep(Recent(sinceReset, |KonamiSequence|), code) ==
              if window == KonamiSequence then ([], true) else (window, false)
  {
    var h := sinceReset + [code];
    var window := Recent(h, |KonamiSequence|);
    PushDropOldestKeepsRecent(sinceReset, code, |KonamiSequence|);
    assert CommaFree(h) by {
      forall i | 0 <= i < |h| ensures ',' !in h[i] {
        if i < |sinceReset| { assert h[i] == sinceReset[i]; }
      }
    }
    assert window != [] && CommaFree(window) by {
      assert window == h[|h| - |window|..];
    }
    KonamiSequenceCommaFree();
    if Join(window) == Join(KonamiSequence) {
      JoinInjective(window, KonamiSequence);
    }
  }

  /** The keydown listener's buffer and how many times the easter egg fired. */
  class KonamiDetector {
    var buffer: seq<string>
    var activations: nat
    /** The codes typed since the page loaded or the last match. */
    ghost var sinceReset: seq<string>

    ghost predicate Valid()
      reads this
    {
      buffer == Recent(sinceReset, |KonamiSequence|)
    }

    constructor ()
      ensures Valid() && buffer == [] && sinceReset == [] && activations == 0
    {
      buffer := [];
      activations := 0;
      sinceReset := [];
    }

    method OnKeyDown(code: string) returns (fired: bool)
      requires Valid()
      modifies this
      ensures Valid() && |buffer| <= |KonamiSequence|
      ensures (buffer, fired) == KonamiStep(old(buffer), code)
      ensures fired <==> Join(Recent(old(sinceReset) + [code], |KonamiSequence|)) == Join(KonamiSequence)
      ensures CommaFree(old(sinceReset)) && ',' !in code ==>
                (fired <==> Recent(old(sinceReset) + [code], |KonamiSequence|) == KonamiSequence)
      ensures sinceReset == if fired then [] else old(sinceReset) + [code]
      ensures fired ==> buffer == []
      ensures activations == old(activations) + (if fired then 1 else 0)
    {
      PushDropOldestKeepsRecent(sinceReset, code, |KonamiSequence|);
      buffer := buffer + [code];
      if |buffer| > |KonamiSequence| {
        buffer := buffer[1..];
      }
      fired := Join(buffer) == Join(KonamiSequence);
      if fired {
        activations := activations + 1;
        buffer := [];
        sinceReset := [];
      } else {
        sinceReset := sinceReset + [code];
      }
      if CommaFree(old(sinceReset)) && ',' !in code {
        KonamiStepMeaning(old(sinceReset), code);
      }
    }
  }

  // ------------------------------------------------------------------
  // Mouse trail
  // ------------------------------------------------------------------

  const MaxTrailLength: nat := 20

  /** Widths at or below this count as mobile, where the trail is disabled. */
  const MobileWidth: int := 768

  /** A recorded mouse position with its Date.now() timestamp. */
  datatype Point = Point(x: int, y: int, time: int)

  class MouseTrail {
    var points: seq<Point>
    /** Every point the listener has accepted since the page loaded. */
    ghost var accepted: seq<Point>

    ghost predicate Valid()
      reads this
    {
      points == Recent(accepted, MaxTrailLength)
    }

    constructor ()
      ensures Valid() && points == [] && accepted == []
    {
      points := [];
      accepted := [];
    }

    /** The mousemove listener: ignored on narrow screens, otherwise push the
        point and drop the oldest once there are more than twenty. */
    method OnMouseMove(p: Point, innerWidth: int)
      requires Valid()
      modifies this
      ensures Valid() && |points| <= MaxTrailLength
      ensures innerWidth <= MobileWidth ==> points == old(points) && accepted == old(accepted)
      ensures innerWidth > MobileWidth ==>
                accepted == old(accepted) + [p] && points == PushDropOldest(old(points), p, MaxTrailLength)
    {
      if innerWidth <= MobileWidth {
        return;
      }
      PushDropOldestKeepsRecent(accepted, p, MaxTrailLength);
      points := points + [p];
      if |points| > MaxTrailLength {
        points := points[1..];
      }
      accepted := accepted + [p];
    }
  }

  // ------------------------------------------------------------------
  // Contact form: isValidEmail and the submit checks
  // ------------------------------------------------------------------

  /** ECMAScript `\s`: the WhiteSpace and LineTerminator code points. */
  predicate IsSpace(c: char)
  {
    c == '\t' || c == '\n' || c == '\U{B}' || c == '\U{C}' || c == '\r' || c == ' ' ||
    c == '\U{A0}' || c == '\U{1680}' || ('\U{2000}' <= c <= '\U{200A}') ||
    c == '\U{2028}' || c == '\U{2029}' || c == '\U{202F}' || c == '\U{205F}' ||
    c == '\U{3000}' || c == '\U{FEFF}'
  }

  /** The character class `[^\s@]`. */
  predicate Plain(c: char)
  {
    !IsSpace(c) && c != '@'
  }

  predicate AllPlain(s: string)
  {
    forall k :: 0 <= k < |s| ==> Plain(s[k])
  }

  /** `/^[^\s@]+@[^\s@]+\.[^\s@]+$/.test(s)`: s is A "@" B "." C with A, B and C
      non-empty and free of whitespace and "@". */
  predicate IsValidEmail(s: string)
  {
    exists at, dot :: 0 < at && at + 1 < dot < |s| - 1 && s[at] == '@' && s[dot] == '.' &&
      AllPlain(s[..at]) && AllPlain(s[at + 1..dot]) && AllPlain(s[dot + 1..])
  }

  predicate NoSpace(s: string)
  {
    forall k :: 0 <= k < |s| ==> !IsSpace(s[k])
  }

  /** Position `at` holds the only "@" of s. */
  predicate OnlyAt(s: string, at: int)
  {
    0 <= at < |s| && s[at] == '@' && forall k :: 0 <= k < |s| && s[k] == '@' ==> k == at
  }

  /** A "." at least two past position `at` and before the last character. */
  predicate DotAfter(s: string, at: int)
  {
    exists dot :: 0 <= at && at + 2 <= dot <= |s| - 2 && s[dot] == '.'
  }

  /** The pattern read character by character: no whitespace, exactly one "@",
      not first, and a "." that leaves at least one character on each side
      between the "@" and the end. */
  lemma EmailShape(s: string)
    ensures IsValidEmail(s) <==> NoSpace(s) && exists at :: 0 < at && OnlyAt(s, at) && DotAfter(s, at)
  {
    if IsValidEmail(s) {
      var at, dot :| 0 < at && at + 1 < dot < |s| - 1 && s[at] == '@' && s[dot] == '.' &&
        AllPlain(s[..at]) && AllPlain(s[at + 1..dot]) && AllPlain(s[dot + 1..]);
      forall k | 0 <= k < |s|
        ensures !IsSpace(s[k]) && (s[k] == '@' ==> k == at)
      {
        if k < at { assert s[..at][k] == s[k]; }
        else if at < k < dot { assert s[at + 1..dot][k - at - 1] == s[k]; }
        else if dot < k { assert s[dot + 1..][k - dot - 1] == s[k]; }
      }
      assert OnlyAt(s, at) && DotAfter(s, at);
    }
    if NoSpace(s) && exists at :: 0 < at && OnlyAt(s, at) && DotAfter(s, at) {
      var at :| 0 < at && OnlyAt(s, at) && DotAfter(s, at);
      var dot :| at + 2 <= dot <= |s| - 2 && s[dot] == '.';
      assert AllPlain(s[..at]) && AllPlain(s[at + 1..dot]) && AllPlain(s[dot + 1..]);
    }
  }

  /** A one-pass scanner for the email pattern: it remembers the first "@" and
      whether a "." has been seen where the pattern allows the separator. */
  method ScanEmail(s: string) returns (ok: bool)
    ensures ok <==> IsValidEmail(s)
  {
    EmailShape(s);
    var at := -1;
    var dot := -1;
    var i := 0;
    while i < |s|
      invariant 0 <= i <= |s|
      invariant forall k :: 0 <= k < i ==> !IsSpace(s[k])
      invariant -1 <= at < i
      invariant at == -1 ==> forall k :: 0 <= k < i ==> s[k] != '@'
      invariant at >= 0 ==> s[at] == '@' && forall k :: 0 <= k < i && s[k] == '@' ==> k == at
      invariant dot >= 0 ==> at >= 0 && at + 2 <= dot <= |s| - 2 && dot < i && s[dot] == '.'
      invariant dot == -1 ==> forall k :: at >= 0 && at + 2 <= k <= |s| - 2 && k < i ==> s[k] != '.'
    {
      var c := s[i];
      if IsSpace(c) {
        return false;
      }
      if c == '@' {
        if at >= 0 {
          return false;
        }
        at := i;
      } else if c == '.' && at >= 0 && at + 2 <= i && i + 2 <= |s| {
        dot := i;
      }
      i := i + 1;
    }
    ok := at > 0 && dot >= 0;
  }

  /** The outcome of the submit handler. */
  datatype SubmitOutcome = MissingField | InvalidEmail | Sending

  /** FormData.get gives the field's string, or nothing when the field is
      absent; the handler's `!field` rejects both nothing and "". */
  predicate Filled(field: Option<string>)
  {
    field.Some? && field.value != ""
  }

  /** The submit handler's decision: a missing field is reported before the
      email is looked at, and only a complete form with a valid email is sent. */
  function SubmitDecision(name: Option<string>, email: Option<string>, message: Option<string>): (r: SubmitOutcome)
    ensures r == MissingField <==> !Filled(name) || !Filled(email) || !Filled(message)
    ensures r == InvalidEmail <==> Filled(name) && Filled(email) && Filled(message) && !IsValidEmail(email.value)
  {
    if !Filled(name) || !Filled(email) || !Filled(message) then MissingField
    else if !IsValidEmail(email.value) then InvalidEmail
    else Sending
  }

  /** The send path is reached only with a name, a message, and an email that
      has no whitespace, a single "@" after its first character and a "." that
      splits what follows into two non-empty parts. */
  lemma SubmitSendsWellFormed(name: Option<string>, email: Option<string>, message: Option<string>)
    ensures SubmitDecision(name, email, message) == Sending <==>
              Filled(name) && Filled(message) && email.Some? && NoSpace(email.value) &&
              exists at :: 0 < at && OnlyAt(email.value, at) && DotAfter(email.value, at)
  {
    if email.Some? {
      EmailShape(email.value);
    }
  }

  // ------------------------------------------------------------------
  // Mobile menu, keyboard shortcuts and scroll targets
  // ------------------------------------------------------------------

  /** Scrolling to a section stops 80px above its top, under the fixed navbar. */
  const NavbarOffset: int := 80

  /** Index of the first section with the given id (document.getElementById). */
  function FindSection(sections: seq<Section>, id: SectionId): (r: Option<nat>)
    ensures r.None? <==> forall i :: 0 <= i < |sections| ==> sections[i].id != id
    ensures r.Some? ==> r.value < |sections| && sections[r.value].id == id
    ensures r.Some? ==> forall j :: 0 <= j < r.value ==> sections[j].id != id
  {
    if |sections| == 0 then None
    else if sections[0].id == id then Some(0)
    else match FindSection(sections[1..], id)
      case None => None
      case Some(k) => Some(k + 1)
  }

  /** scrollToSection: the scroll target for an id, when an element with that id
      exists. `sections` stands for every element of the page that carries an id,
      in document order, since getElementById and querySelector("#id") look at
      all of them, not only at `<section>` elements. */
  function ScrollToSection(sections: seq<Section>, id: SectionId): (r: Option<int>)
    ensures r.None? <==> forall i :: 0 <= i < |sections| ==> sections[i].id != id
    ensures r.Some? ==> exists i :: 0 <= i < |sections| && sections[i].id == id &&
                          (forall j :: 0 <= j < i ==> sections[j].id != id) &&
                          r.value == sections[i].top - NavbarOffset
  {
    match FindSection(sections, id)
    case None => None
    case Some(i) => Some(sections[i].top - NavbarOffset)
  }

  /** The sections reached by Ctrl/Meta + 1 .. 6, in key order. */
  const ShortcutSections: seq<SectionId> := ["home", "about", "experience", "projects", "skills", "contact"]

  /** The keys of those shortcuts, in the same order. */
  const ShortcutKeys: seq<string> := ["1", "2", "3", "4", "5", "6"]

  /** The shortcut switch: keys "1" .. "6" name a section, every other key none. */
  function ShortcutTarget(key: string): (r: Option<SectionId>)
    ensures r.Some? <==> key in ShortcutKeys
    ensures forall d :: 0 <= d < |ShortcutKeys| && key == ShortcutKeys[d] ==> r == Some(ShortcutSections[d])
  {
    if key == "1" then Some("home")
    else if key == "2" then Some("about")
    else if key == "3" then Some("experience")
    else if key == "4" then Some("projects")
    else if key == "5" then Some("skills")
    else if key == "6" then Some("contact")
    else None
  }

  const IconClose: string := "close"
  const IconMenu: string := "menu"

  /** The mobile menu: whether #nav-menu has the `active` class, and the
      toggle icon's text. */
  class Menu {
    var active: bool
    var icon: string

    ghost predicate Valid()
      reads this
    {
      icon == if active then IconClose else IconMenu
    }

    constructor ()
      ensures Valid() && !active
    {
      active := false;
      icon := IconMenu;
    }

    /** The toggle button's click listener. */
    method Toggle()
      requires Valid()
      modifies this
      ensures Valid() && active == !old(active)
      ensures icon == IconClose <==> active
    {
      active := !active;
      icon := if active then IconClose else IconMenu;
    }

    /** A nav link's two click listeners, in registration order: close the
        menu, then scroll to the section the href names, if it exists. */
    method OnLinkClick(sections: seq<Section>, target: SectionId) returns (scrollTo: Option<int>)
      requires Valid()
      modifies this
      ensures Valid() && !active && icon == IconMenu
      ensures scrollTo == ScrollToSection(sections, target)
    {
      active := false;
      icon := IconMenu;
      scrollTo := ScrollToSection(sections, target);
    }

    /** The keydown listener: Escape closes an open menu, and Ctrl or Meta with
        a digit from 1 to 6 scrolls to the matching section. */
    method OnKeyDown(key: string, ctrlKey: bool, metaKey: bool, sections: seq<Section>) returns (scrollTo: Option<int>)
      requires Valid()
      modifies this
      ensures Valid()
      ensures key == "Escape" ==> !active && icon == IconMenu
      ensures key != "Escape" ==> active == old(active) && icon == old(icon)
      ensures (ctrlKey || metaKey) && ShortcutTarget(key).Some? ==>
                scrollTo == ScrollToSection(sections, ShortcutTarget(key).value)
      ensures !(ctrlKey || metaKey) || ShortcutTarget(key).None? ==> scrollTo == None
    {
      if key == "Escape" && active {
        active := false;
        icon := IconMenu;
      }
      scrollTo := None;
      if ctrlKey || metaKey {
        var target := ShortcutTarget(key);
        if target.Some? {
          scrollTo := ScrollToSection(sections, target.value);
        }
      }
    }
  }
}
