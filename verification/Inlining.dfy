/** The graph of inlined references: which targets the normal form of a node pulls in
    directly, and what a cycle in that graph is. */
module Inlining {
  import opened Wrappers
  import opened Yaml
  import opened References
  import opened Normalization
  import opened Sequences

  ghost function InlineTargets(s: Sources, origin: string, node: Node, entries: bool): set<Locator>
    decreases node, 0
  {
    match node
    case Scalar(_) => {}
    case Sequence(items) =>
      set i, at | 0 <= i < |items| && at in InlineTargets(s, origin, items[i], false) :: at
    case Mapping(es) =>
      var reference := RefOf(node);
      if reference.Some? && LeavesRoot(s, origin, reference.value) then
        var found := Locate(s, origin, reference.value);
        (if found.Ok? then {found.value.0} else {}) +
        set i, at | 0 <= i < |es| && es[i].key != "$ref" && at in InlineTargets(s, origin, es[i].value, false) :: at
      else
        set i, at | 0 <= i < |es| && at in EntryTargets(s, origin, es[i], entries) :: at
  }

  ghost function EntryTargets(s: Sources, origin: string, e: Entry, entries: bool): set<Locator>
    decreases e.value, 1
  {
    if !entries && Extension(e.key) then {}
    else if entries || e.key == "schema" || e.key == "itemSchema" then {}
    else InlineTargets(s, origin, e.value, e.key == "schemas")
  }

  /** The targets that may be inlined next, after those of `trail`, outermost first. */
  ghost function Frontier(s: Sources, trail: seq<Locator>): set<Locator>
  {
    if trail == [] then
      if s.root in s.documents then InlineTargets(s, s.root, s.documents[s.root], false) else {}
    else
      var last := trail[|trail| - 1];
      match Target(s, last)
      case None => {}
      case Some(node) => InlineTargets(s, last.document, node, false)
  }

  /** Every step of the trail is inlined by the step before it; the first by the root. */
  ghost predicate InlineTrail(s: Sources, trail: seq<Locator>)
  {
    forall i :: 0 <= i < |trail| ==> trail[i] in Frontier(s, trail[..i])
  }

  ghost predicate InlineCycle(s: Sources)
  {
    exists trail :: InlineTrail(s, trail) && Repeats(trail)
  }

  lemma TrailExtends(s: Sources, trail: seq<Locator>, at: Locator)
    requires InlineTrail(s, trail) && at in Frontier(s, trail)
    ensures InlineTrail(s, trail + [at])
    ensures Elements(trail + [at]) == Elements(trail) + {at}
    ensures at in trail ==> InlineCycle(s)
  {
    hide Frontier, InlineTargets, Repeats;
    var longer := trail + [at];
    forall i | 0 <= i < |longer| ensures longer[i] in Frontier(s, longer[..i]) {
      if i < |trail| {
        assert longer[..i] == trail[..i];
      } else {
        assert longer[..i] == trail;
      }
    }
    if at in trail {
      NowRepeats(trail, at);
      assert InlineTrail(s, longer);
    }
  }

  lemma NowRepeats(trail: seq<Locator>, at: Locator)
    requires at in trail
    ensures Repeats(trail + [at])
  {
    var longer := trail + [at];
    var i :| 0 <= i < |trail| && trail[i] == at;
    assert longer[i] == longer[|trail|];
  }

  /** A node with a normal form only inlines targets that are not being inlined already,
      and each of those has a normal form in turn. */
  lemma {:induction false} NormalTargets(s: Sources, names: Names, active: set<Locator>, origin: string, node: Node, entries: bool, at: Locator)
    requires Known(s, node)
    requires NormalPlain(s, names, active, origin, node, entries).Some?
    requires at in InlineTargets(s, origin, node, entries)
    ensures at !in active && Target(s, at).Some?
    ensures NormalPlain(s, names, active + {at}, at.document, Target(s, at).value, false).Some?
    decreases node, 0
  {
    match node
    case Scalar(_) =>
    case Sequence(items) =>
      var i :| 0 <= i < |items| && at in InlineTargets(s, origin, items[i], false);
      ChildKnown(s, node, items[i]);
      NormalTargets(s, names, active, origin, items[i], false, at);
    case Mapping(es) =>
      var reference := RefOf(node);
      if reference.Some? && LeavesRoot(s, origin, reference.value) {
        var found := Locate(s, origin, reference.value);
        assert IsChild(node, Scalar(reference.value));
        ChildKnown(s, node, Scalar(reference.value));
        Located(s, origin, reference.value);
        if at != found.value.0 {
          var i :| 0 <= i < |es| && es[i].key != "$ref" && at in InlineTargets(s, origin, es[i].value, false);
          ReferenceEntry(es);
          var inlined := NormalPlain(s, names, active + {found.value.0}, found.value.0.document, found.value.1, false);
          assert inlined.value.Mapping?;
          SiblingTargets(s, names, active, origin, inlined.value, es, i, at);
          ChildKnown(s, node, es[i].value);
          NormalTargets(s, names, active, origin, es[i].value, false, at);
        }
      } else {
        var i :| 0 <= i < |es| && at in EntryTargets(s, origin, es[i], entries);
        ChildKnown(s, node, es[i].value);
        assert PlainEntry(s, names, active, origin, es[i], entries).Some?;
        NormalTargets(s, names, active, origin, es[i].value, es[i].key == "schemas", at);
      }
  }

  lemma ReferenceEntry(es: seq<Entry>)
    requires RefOf(Mapping(es)).Some?
    ensures exists i :: 0 <= i < |es| && es[i].key == "$ref"
  {
    assert es[IndexOf(es, "$ref")].key == "$ref";
  }

  lemma {:induction false} SiblingTargets(s: Sources, names: Names, active: set<Locator>, origin: string, base: Node, es: seq<Entry>, i: nat, at: Locator)
    requires Overlay(s, names, active, origin, base, es).Some?
    requires i < |es| && es[i].key != "$ref"
    ensures NormalPlain(s, names, active, origin, es[i].value, false).Some?
  {
    if i < |es| - 1 {
      SiblingTargets(s, names, active, origin, base, es[..|es| - 1], i, at);
    }
  }

  /** A document with a normal form has no inline cycle. */
  lemma {:induction false} NormalFormsAreAcyclic(s: Sources, names: Names)
    requires s.root in s.documents
    requires NormalPlain(s, names, {}, s.root, s.documents[s.root], false).Some?
    ensures !InlineCycle(s)
  {
    forall trail | InlineTrail(s, trail) ensures !Repeats(trail) {
      TrailIsNormal(s, names, trail);
    }
  }

  /** The normal form of what was inlined last, while the whole trail is active. */
  ghost predicate NormalAtEnd(s: Sources, names: Names, trail: seq<Locator>) {
    if trail == [] then
      s.root in s.documents && NormalPlain(s, names, {}, s.root, s.documents[s.root], false).Some?
    else
      var last := trail[|trail| - 1];
      Target(s, last).Some? && NormalPlain(s, names, Elements(trail), last.document, Target(s, last).value, false).Some?
  }

  /** What is inlined next is not on the trail, and has a normal form too. */
  lemma NextIsNormal(s: Sources, names: Names, front: seq<Locator>, last: Locator)
    requires NormalAtEnd(s, names, front) && last in Frontier(s, front)
    ensures last !in Elements(front) && NormalAtEnd(s, names, front + [last])
  {
    hide NormalPlain, InlineTargets, Known, Target, Universe, Elements;
    OneMore(front, last);
    if front == [] {
      NoRepeats();
      DocumentKnown(s, s.root);
      NormalTargets(s, names, {}, s.root, s.documents[s.root], false, last);
    } else {
      var above := front[|front| - 1];
      TargetKnown(s, above);
      NormalTargets(s, names, Elements(front), above.document, Target(s, above).value, false, last);
    }
  }

  lemma OneMore(front: seq<Locator>, last: Locator)
    ensures Elements(front + [last]) == Elements(front) + {last}
  {
  }

  lemma FrontOfTrail(s: Sources, trail: seq<Locator>)
    requires InlineTrail(s, trail) && trail != []
    ensures InlineTrail(s, trail[..|trail| - 1])
    ensures trail[|trail| - 1] in Frontier(s, trail[..|trail| - 1])
  {
    hide Frontier;
    var front := trail[..|trail| - 1];
    forall i | 0 <= i < |front| ensures front[i] in Frontier(s, front[..i]) {
      assert front[..i] == trail[..i];
    }
  }

  lemma {:induction false} TrailIsNormal(s: Sources, names: Names, trail: seq<Locator>)
    requires NormalAtEnd(s, names, []) && InlineTrail(s, trail)
    ensures !Repeats(trail) && NormalAtEnd(s, names, trail)
  {
    hide NormalAtEnd, InlineTrail, Frontier, Repeats, Elements;
    if trail == [] {
      NoRepeats();
    } else {
      var front, last := trail[..|trail| - 1], trail[|trail| - 1];
      assert trail == front + [last];
      FrontOfTrail(s, trail);
      TrailIsNormal(s, names, front);
      NextIsNormal(s, names, front, last);
      StillNoRepeats(front, last);
    }
  }

  lemma NoRepeats()
    ensures !Repeats<Locator>([]) && Elements<Locator>([]) == {}
  {
  }

  lemma StillNoRepeats(front: seq<Locator>, last: Locator)
    requires !Repeats(front) && last !in Elements(front)
    ensures !Repeats(front + [last])
  {
    var trail := front + [last];
    forall i, j | 0 <= i < j < |trail| ensures trail[i] != trail[j] {
      if j < |front| {
        assert front[i] == trail[i] && front[j] == trail[j];
      } else {
        assert front[i] in Elements(front);
      }
    }
  }

  lemma TargetKnown(s: Sources, at: Locator)
    requires Target(s, at).Some?
    ensures Known(s, Target(s, at).value)
  {
    DocumentKnown(s, at.document);
    if at.fragment.Pointer? {
      WalkStaysKnown(s, s.documents[at.document], at.fragment.tokens);
    }
  }
}
