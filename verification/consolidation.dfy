/**
  `ConsolidationEngine`: splits the alteration events into the set of revoked
  dispositivo ids and the map of altered ones, then writes the norma's
  dispositivos depth-first from the parentless ones, between a header and a
  footer of counts.

  The dispositivos are an arena: a sequence in `ordem` order whose parent links
  are indices of earlier entries. `str(dispositivo)` is the `title` field,
  taken as given. The events are the deduplicated list `_load_eventos` builds;
  the clock reading is a parameter.
*/
module Consolidation {
  import opened Wrappers
  import opened PyText
  import opened Legislation
  import Extractor

  // ---------------------------------------------------------------------------
  // Dispositivos and events

  /** One dispositivo: its id, its parent's position in the list, the text
      `str(dispositivo)` gives, and its own text. */
  datatype Unit = Unit(id: int, parent: Option<nat>, title: string, texto: string)

  /** Every parent comes before its child. */
  predicate Arena(units: seq<Unit>) {
    forall i :: 0 <= i < |units| && units[i].parent.Some? ==> units[i].parent.value < i
  }

  /** One `EventoAlteracao`: action, target dispositivo id (if identified), the
      norma of the source dispositivo, and the target text. */
  datatype Evento = Evento(acao: Extractor.ActionKind, target: Option<int>, fonte: Norma, targetText: string)

  // ---------------------------------------------------------------------------
  // _process_eventos

  /** `revoked_dispositivos` and `altered_dispositivos`. */
  datatype Partition = Partition(revoked: set<int>, altered: map<int, Evento>)

  predicate IsRevocationOf(e: Evento, id: int) {
    e.target == Some(id) && e.acao == Extractor.Revoga
  }

  predicate IsAlterationOf(e: Evento, id: int) {
    e.target == Some(id) && e.acao == Extractor.Altera
  }

  /** One loop iteration: a targeted REVOGA adds the id, a targeted ALTERA
      (over)writes the id's entry, anything else changes nothing. */
  function ProcessEvento(p: Partition, e: Evento): Partition {
    if e.target.None? then p
    else if e.acao == Extractor.Revoga then Partition(p.revoked + {e.target.value}, p.altered)
    else if e.acao == Extractor.Altera then Partition(p.revoked, p.altered[e.target.value := e])
    else p
  }

  /** `_process_eventos` over the events in iteration order, starting from
      the sets the engine already holds (they are never cleared). */
  function ProcessEventos(p: Partition, events: seq<Evento>): Partition {
    if |events| == 0 then p
    else ProcessEvento(ProcessEventos(p, events[..|events| - 1]), events[|events| - 1])
  }

  /** A fresh engine's empty sets. */
  const NoChanges := Partition({}, map[])

  /** Some event revokes `id`. */
  predicate HasRevocation(events: seq<Evento>, id: int) {
    exists e :: e in events && IsRevocationOf(e, id)
  }

  /** Some event alters `id`. */
  predicate HasAlteration(events: seq<Evento>, id: int) {
    exists e :: e in events && IsAlterationOf(e, id)
  }

  /** `e` is the ALTERA event for `id` that comes last in `events`. */
  predicate LastAlteration(events: seq<Evento>, id: int, e: Evento) {
    exists k :: 0 <= k < |events| && events[k] == e && IsAlterationOf(e, id) && NoAlterationAfter(events, id, k)
  }

  predicate NoAlterationAfter(events: seq<Evento>, id: int, k: nat) {
    forall k' :: k < k' < |events| ==> !IsAlterationOf(events[k'], id)
  }

  lemma InInit(events: seq<Evento>, e: Evento)
    requires |events| > 0
    ensures e in events <==> e in events[..|events| - 1] || e == events[|events| - 1]
  {
    assert events == events[..|events| - 1] + [events[|events| - 1]];
  }

  /** The revoked set gains exactly the targets of REVOGA events. */
  lemma {:induction false} RevokedMeaning(p: Partition, events: seq<Evento>, id: int)
    ensures id in ProcessEventos(p, events).revoked <==> id in p.revoked || HasRevocation(events, id)
  {
    if |events| > 0 {
      var init, last := events[..|events| - 1], events[|events| - 1];
      RevokedMeaning(p, init, id);
      if HasRevocation(init, id) {
        var e :| e in init && IsRevocationOf(e, id);
        InInit(events, e);
      }
      if HasRevocation(events, id) && !IsRevocationOf(last, id) {
        var e :| e in events && IsRevocationOf(e, id);
        InInit(events, e);
      }
      InInit(events, last);
    }
  }

  /** The altered map gains exactly the targets of ALTERA events as keys. */
  lemma {:induction false} AlteredKeys(p: Partition, events: seq<Evento>, id: int)
    ensures id in ProcessEventos(p, events).altered <==> id in p.altered || HasAlteration(events, id)
  {
    if |events| > 0 {
      var init, last := events[..|events| - 1], events[|events| - 1];
      AlteredKeys(p, init, id);
      if HasAlteration(init, id) {
        var e :| e in init && IsAlterationOf(e, id);
        InInit(events, e);
      }
      if HasAlteration(events, id) && !IsAlterationOf(last, id) {
        var e :| e in events && IsAlterationOf(e, id);
        InInit(events, e);
      }
      InInit(events, last);
    }
  }

  /** An id some event alters maps to the last ALTERA event for it (a later
      alteration overwrites an earlier one); any other entry is left as it was. */
  lemma {:induction false} AlteredLast(p: Partition, events: seq<Evento>, id: int)
    requires id in ProcessEventos(p, events).altered
    ensures HasAlteration(events, id) ==> LastAlteration(events, id, ProcessEventos(p, events).altered[id])
    ensures !HasAlteration(events, id) ==> id in p.altered && ProcessEventos(p, events).altered[id] == p.altered[id]
  {
    AlteredKeys(p, events, id);
    if |events| > 0 {
      var last := |events| - 1;
      var init := events[..last];
      var r := ProcessEventos(p, events);
      InInit(events, events[last]);
      if IsAlterationOf(events[last], id) {
        assert NoAlterationAfter(events, id, last);
      } else {
        var q := ProcessEventos(p, init);
        assert r.altered[id] == q.altered[id];
        AlteredLast(p, init, id);
        if HasAlteration(init, id) {
          var k :| 0 <= k < |init| && init[k] == q.altered[id] && IsAlterationOf(q.altered[id], id)
            && NoAlterationAfter(init, id, k);
          assert events[k] == r.altered[id];
          assert NoAlterationAfter(events, id, k);
        } else {
          forall e | e in events && IsAlterationOf(e, id) ensures false {
            InInit(events, e);
          }
        }
      }
    }
  }

  /** Which ids are revoked and which are altered does not depend on the order
      the deduplicated events are visited in. */
  lemma ProcessOrderIrrelevant(p: Partition, e1: seq<Evento>, e2: seq<Evento>)
    requires forall e :: e in e1 <==> e in e2
    ensures ProcessEventos(p, e1).revoked == ProcessEventos(p, e2).revoked
    ensures ProcessEventos(p, e1).altered.Keys == ProcessEventos(p, e2).altered.Keys
  {
    var p1, p2 := ProcessEventos(p, e1), ProcessEventos(p, e2);
    forall id ensures id in p1.revoked <==> id in p2.revoked {
      RevokedMeaning(p, e1, id);
      RevokedMeaning(p, e2, id);
    }
    forall id ensures id in p1.altered <==> id in p2.altered {
      AlteredKeys(p, e1, id);
      AlteredKeys(p, e2, id);
    }
  }

  /** At most one event is the last ALTERA event for an id. */
  lemma LastUnique(events: seq<Evento>, id: int, e1: Evento, e2: Evento)
    requires LastAlteration(events, id, e1) && LastAlteration(events, id, e2)
    ensures e1 == e2
  {
    var k1 :| 0 <= k1 < |events| && events[k1] == e1 && IsAlterationOf(e1, id) && NoAlterationAfter(events, id, k1);
    var k2 :| 0 <= k2 < |events| && events[k2] == e2 && IsAlterationOf(e2, id) && NoAlterationAfter(events, id, k2);
    assert k1 == k2;
  }

  /** Processing the same events again changes nothing: the revoked set, the
      altered ids and the event stored for each altered id all stay the same. */
  lemma {:induction false} ProcessTwice(p: Partition, events: seq<Evento>)
    ensures ProcessEventos(ProcessEventos(p, events), events) == ProcessEventos(p, events)
  {
    var q := ProcessEventos(p, events);
    var r := ProcessEventos(q, events);
    forall id ensures id in r.revoked <==> id in q.revoked {
      RevokedMeaning(p, events, id);
      RevokedMeaning(q, events, id);
    }
    forall id ensures id in r.altered <==> id in q.altered {
      AlteredKeys(p, events, id);
      AlteredKeys(q, events, id);
    }
    forall id | id in r.altered ensures r.altered[id] == q.altered[id] {
      AlteredLast(q, events, id);
      if HasAlteration(events, id) {
        AlteredLast(p, events, id);
        LastUnique(events, id, r.altered[id], q.altered[id]);
      }
    }
    assert r.revoked == q.revoked;
    assert r.altered == q.altered;
  }

  // ---------------------------------------------------------------------------
  // The reference notions: depth, visibility, ancestry

  function Depth(units: seq<Unit>, i: nat): nat
    requires Arena(units) && i < |units|
    decreases i
  {
    if units[i].parent.None? then 0 else 1 + Depth(units, units[i].parent.value)
  }

  predicate Revoked(units: seq<Unit>, st: Partition, i: nat)
    requires i < |units|
  {
    units[i].id in st.revoked
  }

  predicate Altered(units: seq<Unit>, st: Partition, i: nat)
    requires i < |units|
  {
    units[i].id in st.altered
  }

  /** No strict ancestor of `i` is revoked. */
  predicate Visible(units: seq<Unit>, st: Partition, i: nat)
    requires Arena(units) && i < |units|
    decreases i
  {
    units[i].parent.None?
    || (!Revoked(units, st, units[i].parent.value) && Visible(units, st, units[i].parent.value))
  }

  /** `a` is `u` or one of its ancestors. */
  predicate Below(units: seq<Unit>, a: nat, u: nat)
    requires Arena(units) && u < |units|
    decreases u
  {
    a == u || (units[u].parent.Some? && Below(units, a, units[u].parent.value))
  }

  /** No unit strictly above `u`, up to and including its ancestor `a`, is revoked. */
  predicate ClearFrom(units: seq<Unit>, st: Partition, a: nat, u: nat)
    requires Arena(units) && u < |units|
    decreases u
  {
    a == u
    || (units[u].parent.Some?
        && !Revoked(units, st, units[u].parent.value)
        && ClearFrom(units, st, a, units[u].parent.value))
  }

  /** The topmost ancestor of `u`. */
  function Root(units: seq<Unit>, u: nat): (r: nat)
    requires Arena(units) && u < |units|
    ensures r <= u && units[r].parent.None? && Below(units, r, u)
    decreases u
  {
    if units[u].parent.None? then u else Root(units, units[u].parent.value)
  }

  /** The child of `p` on the way down to its strict descendant `u`. */
  function Toward(units: seq<Unit>, p: nat, u: nat): (c: nat)
    requires Arena(units) && u < |units| && u != p && Below(units, p, u)
    ensures p < c <= u && units[c].parent == Some(p) && Below(units, c, u)
    decreases u
  {
    if units[u].parent == Some(p) then u else Toward(units, p, units[u].parent.value)
  }

  // ---------------------------------------------------------------------------
  // _add_dispositivo_to_text

  datatype LineKind = RevokedLine | TextLine | AnnotationLine

  /** One output line, tagged with the unit it belongs to. */
  datatype Line = Line(unit: nat, kind: LineKind, indent: nat, content: string)

  function RevokedContent(u: Unit): string {
    u.title + " (REVOGADO)"
  }

  function TextContent(u: Unit): string {
    u.title + " " + u.texto
  }

  /** `[ALTERADO pela tipo numero/ano]`, from the norma of the altering dispositivo. */
  function AnnotationContent(e: Evento): string {
    "[ALTERADO pela " + e.fonte.tipo + " " + e.fonte.numero + "/" + IntStr(e.fonte.ano) + "]"
  }

  /** The lines a unit writes for itself at `level`: the revoked placeholder
      (which wins over an alteration), or its text followed, when altered, by
      the annotation two columns further in. */
  function OwnLines(units: seq<Unit>, st: Partition, i: nat, level: nat): seq<Line>
    requires i < |units|
  {
    if Revoked(units, st, i) then [Line(i, RevokedLine, 2 * level, RevokedContent(units[i]))]
    else if Altered(units, st, i) then
      [Line(i, TextLine, 2 * level, TextContent(units[i])),
       Line(i, AnnotationLine, 2 * level + 2, AnnotationContent(st.altered[units[i].id]))]
    else [Line(i, TextLine, 2 * level, TextContent(units[i]))]
  }

  /** `_add_dispositivo_to_text(units[i], lines, level)`: a revoked unit stops
      after its placeholder; otherwise its children follow in list order. */
  function RenderUnit(units: seq<Unit>, st: Partition, i: nat, level: nat): seq<Line>
    requires Arena(units) && i < |units|
    decreases |units| - i, 1, 0
  {
    OwnLines(units, st, i, level)
    + (if Revoked(units, st, i) then [] else RenderChildren(units, st, i, 0, level))
  }

  /** The children of `p` among the units from position `j` on, in list order,
      each rendered one level deeper. */
  function RenderChildren(units: seq<Unit>, st: Partition, p: nat, j: nat, level: nat): seq<Line>
    requires Arena(units) && p < |units| && j <= |units|
    decreases |units| - p, 0, |units| - j
  {
    if j == |units| then []
    else
      (if units[j].parent == Some(p) then RenderUnit(units, st, j, level + 1) else [])
      + RenderChildren(units, st, p, j + 1, level)
  }

  /** The parentless units from position `j` on, in list order, at level 0. */
  function RenderRoots(units: seq<Unit>, st: Partition, j: nat): seq<Line>
    requires Arena(units) && j <= |units|
    decreases |units| - j
  {
    if j == |units| then []
    else
      (if units[j].parent.None? then RenderUnit(units, st, j, 0) else [])
      + RenderRoots(units, st, j + 1)
  }

  // ---------------------------------------------------------------------------
  // What the traversal writes for each unit

  /** The number of lines tagged with unit `u`. */
  function Count(lines: seq<Line>, u: nat): nat {
    if |lines| == 0 then 0 else (if lines[0].unit == u then 1 else 0) + Count(lines[1..], u)
  }

  lemma {:induction false} CountConcat(a: seq<Line>, b: seq<Line>, u: nat)
    ensures Count(a + b, u) == Count(a, u) + Count(b, u)
  {
    if |a| > 0 {
      assert (a + b)[1..] == a[1..] + b;
      CountConcat(a[1..], b, u);
    } else {
      assert a + b == b;
    }
  }

  /** How many lines a rendered unit writes for itself. */
  function Emitted(units: seq<Unit>, st: Partition, u: nat): nat
    requires u < |units|
  {
    if Revoked(units, st, u) then 1 else if Altered(units, st, u) then 2 else 1
  }

  lemma OwnCount(units: seq<Unit>, st: Partition, i: nat, level: nat, u: nat)
    requires i < |units| && u < |units|
    ensures Count(OwnLines(units, st, i, level), u) == if u == i then Emitted(units, st, u) else 0
  {
    var own := OwnLines(units, st, i, level);
    assert Count(own, u) == (if u == i then 1 else 0) + Count(own[1..], u);
    if |own| == 2 {
      assert Count(own[1..], u) == (if u == i then 1 else 0) + Count(own[1..][1..], u);
      assert own[1..][1..] == [];
    } else {
      assert own[1..] == [];
    }
  }

  /** Below a revoked unit nothing is clear. */
  lemma {:induction false} NotClearUnderRevoked(units: seq<Unit>, st: Partition, a: nat, u: nat)
    requires Arena(units) && u < |units| && a < |units|
    requires Below(units, a, u) && u != a && Revoked(units, st, a)
    ensures !ClearFrom(units, st, a, u)
    decreases u
  {
    var p := units[u].parent.value;
    if p != a {
      NotClearUnderRevoked(units, st, a, p);
    }
  }

  /** `c` being an ancestor-or-self of `u` under parent `p` makes it the child toward `u`. */
  lemma {:induction false} TowardUnique(units: seq<Unit>, p: nat, c: nat, u: nat)
    requires Arena(units) && u < |units| && c < |units|
    requires units[c].parent == Some(p) && Below(units, c, u)
    ensures u != p && Below(units, p, u) && Toward(units, p, u) == c
    decreases u
  {
    if u != c {
      TowardUnique(units, p, c, units[u].parent.value);
    }
  }

  /** Clear from `p`'s child toward `u` and `p` not revoked is clear from `p`. */
  lemma {:induction false} ClearThroughToward(units: seq<Unit>, st: Partition, p: nat, u: nat)
    requires Arena(units) && u < |units| && p < |units|
    requires u != p && Below(units, p, u)
    ensures ClearFrom(units, st, p, u) <==>
              !Revoked(units, st, p) && ClearFrom(units, st, Toward(units, p, u), u)
    decreases u
  {
    if units[u].parent != Some(p) {
      ClearThroughToward(units, st, p, units[u].parent.value);
    }
  }

  /** The subtree rendering of `i` writes each unit `u` below `i` whose path up
      to `i` is free of revoked units exactly once (its own lines), and nothing
      for any other unit. */
  lemma {:induction false} UnitCount(units: seq<Unit>, st: Partition, i: nat, level: nat, u: nat)
    requires Arena(units) && i < |units| && u < |units|
    ensures Count(RenderUnit(units, st, i, level), u) ==
              if Below(units, i, u) && ClearFrom(units, st, i, u) then Emitted(units, st, u) else 0
    decreases |units| - i, 1, 0, 0
  {
    OwnCount(units, st, i, level, u);
    if Revoked(units, st, i) {
      if u != i && Below(units, i, u) {
        NotClearUnderRevoked(units, st, i, u);
      }
      assert RenderUnit(units, st, i, level) == OwnLines(units, st, i, level) + [];
    } else {
      CountConcat(OwnLines(units, st, i, level), RenderChildren(units, st, i, 0, level), u);
      ChildrenCount(units, st, i, 0, level, u);
      if u != i && Below(units, i, u) {
        ClearThroughToward(units, st, i, u);
      }
    }
  }

  /** What the child scan of `p` writes for unit `u` at position `j`. */
  lemma ChildStartCount(units: seq<Unit>, st: Partition, p: nat, j: nat, level: nat, u: nat)
    requires Arena(units) && p < |units| && j < |units| && u < |units|
    ensures Count(if units[j].parent == Some(p) then RenderUnit(units, st, j, level + 1) else [], u) ==
              if u != p && Below(units, p, u) && Toward(units, p, u) == j && ClearFrom(units, st, j, u)
              then Emitted(units, st, u) else 0
    decreases |units| - p, 0, |units| - j, 0
  {
    if units[j].parent == Some(p) {
      UnitCount(units, st, j, level + 1, u);
      if Below(units, j, u) {
        TowardUnique(units, p, j, u);
      }
    }
  }

  lemma {:induction false} ChildrenCount(units: seq<Unit>, st: Partition, p: nat, j: nat, level: nat, u: nat)
    requires Arena(units) && p < |units| && j <= |units| && u < |units|
    ensures Count(RenderChildren(units, st, p, j, level), u) ==
              if u != p && Below(units, p, u) && Toward(units, p, u) >= j && ClearFrom(units, st, Toward(units, p, u), u)
              then Emitted(units, st, u) else 0
    decreases |units| - p, 0, |units| - j, 1
  {
    if j < |units| {
      var first := if units[j].parent == Some(p) then RenderUnit(units, st, j, level + 1) else [];
      var rest := RenderChildren(units, st, p, j + 1, level);
      assert RenderChildren(units, st, p, j, level) == first + rest;
      CountConcat(first, rest, u);
      ChildStartCount(units, st, p, j, level, u);
      ChildrenCount(units, st, p, j + 1, level, u);
    }
  }

  /** Visible means clear all the way from the root. */
  lemma {:induction false} VisibleClear(units: seq<Unit>, st: Partition, u: nat)
    requires Arena(units) && u < |units|
    ensures Visible(units, st, u) <==> ClearFrom(units, st, Root(units, u), u)
    decreases u
  {
    if units[u].parent.Some? {
      VisibleClear(units, st, units[u].parent.value);
    }
  }

  /** A parentless ancestor-or-self of `u` is its root. */
  lemma {:induction false} RootUnique(units: seq<Unit>, r: nat, u: nat)
    requires Arena(units) && u < |units| && r < |units|
    requires units[r].parent.None? && Below(units, r, u)
    ensures Root(units, u) == r
    decreases u
  {
    if u != r {
      RootUnique(units, r, units[u].parent.value);
    }
  }

  /** What the traversal started at position `j` writes for unit `u`. */
  lemma RootStartCount(units: seq<Unit>, st: Partition, j: nat, u: nat)
    requires Arena(units) && j < |units| && u < |units|
    ensures Count(if units[j].parent.None? then RenderUnit(units, st, j, 0) else [], u) ==
              if Root(units, u) == j && Visible(units, st, u) then Emitted(units, st, u) else 0
  {
    VisibleClear(units, st, u);
    if units[j].parent.None? {
      UnitCount(units, st, j, 0, u);
      if Below(units, j, u) {
        RootUnique(units, j, u);
      }
    }
  }

  lemma {:induction false} RootsCount(units: seq<Unit>, st: Partition, j: nat, u: nat)
    requires Arena(units) && j <= |units| && u < |units|
    ensures Count(RenderRoots(units, st, j), u) ==
              if Root(units, u) >= j && Visible(units, st, u) then Emitted(units, st, u) else 0
    decreases |units| - j
  {
    if j < |units| {
      var first := if units[j].parent.None? then RenderUnit(units, st, j, 0) else [];
      var rest := RenderRoots(units, st, j + 1);
      assert RenderRoots(units, st, j) == first + rest;
      CountConcat(first, rest, u);
      RootStartCount(units, st, j, u);
      RootsCount(units, st, j + 1, u);
      if Root(units, u) == j {
        assert Count(rest, u) == 0;
      } else {
        assert Count(first, u) == 0;
      }
    }
  }

  /** The body of the consolidated text writes every unit with no revoked
      ancestor exactly once -- one placeholder line if it is revoked, its text
      and the annotation if it is altered, its text otherwise -- and writes
      nothing for a unit below a revoked one. */
  lemma BodyCount(units: seq<Unit>, st: Partition, u: nat)
    requires Arena(units) && u < |units|
    ensures Count(RenderRoots(units, st, 0), u) == if Visible(units, st, u) then Emitted(units, st, u) else 0
  {
    RootsCount(units, st, 0, u);
  }

  // ---------------------------------------------------------------------------
  // How each line is written

  /** A line of unit `u` is indented two columns per ancestor (two more for the
      annotation), is the placeholder exactly when `u` is revoked, and carries
      the content its kind calls for. */
  predicate WellPlaced(units: seq<Unit>, st: Partition, l: Line)
    requires Arena(units)
  {
    && l.unit < |units|
    && l.indent == 2 * Depth(units, l.unit) + (if l.kind == AnnotationLine then 2 else 0)
    && (l.kind == RevokedLine <==> Revoked(units, st, l.unit))
    && (l.kind == RevokedLine ==> l.content == RevokedContent(units[l.unit]))
    && (l.kind == TextLine ==> l.content == TextContent(units[l.unit]))
    && (l.kind == AnnotationLine ==>
          Altered(units, st, l.unit) && l.content == AnnotationContent(st.altered[units[l.unit].id]))
  }

  predicate AllPlaced(units: seq<Unit>, st: Partition, lines: seq<Line>)
    requires Arena(units)
  {
    forall k :: 0 <= k < |lines| ==> WellPlaced(units, st, lines[k])
  }

  lemma PlacedConcat(units: seq<Unit>, st: Partition, a: seq<Line>, b: seq<Line>)
    requires Arena(units) && AllPlaced(units, st, a) && AllPlaced(units, st, b)
    ensures AllPlaced(units, st, a + b)
  {
    forall k | 0 <= k < |a + b| ensures WellPlaced(units, st, (a + b)[k]) {
      if k >= |a| {
        assert (a + b)[k] == b[k - |a|];
      }
    }
  }

  lemma {:induction false} UnitPlaced(units: seq<Unit>, st: Partition, i: nat, level: nat)
    requires Arena(units) && i < |units| && level == Depth(units, i)
    ensures AllPlaced(units, st, RenderUnit(units, st, i, level))
    decreases |units| - i, 1, 0, 0
  {
    var own := OwnLines(units, st, i, level);
    assert AllPlaced(units, st, own);
    if Revoked(units, st, i) {
      assert RenderUnit(units, st, i, level) == own + [];
    } else {
      ChildrenPlaced(units, st, i, 0, level);
      PlacedConcat(units, st, own, RenderChildren(units, st, i, 0, level));
    }
  }

  /** What the child scan of `p` writes at position `j` is well placed. */
  lemma ChildStartPlaced(units: seq<Unit>, st: Partition, p: nat, j: nat, level: nat)
    requires Arena(units) && p < |units| && j < |units| && level == Depth(units, p)
    ensures AllPlaced(units, st, if units[j].parent == Some(p) then RenderUnit(units, st, j, level + 1) else [])
    decreases |units| - p, 0, |units| - j, 0
  {
    if units[j].parent == Some(p) {
      UnitPlaced(units, st, j, level + 1);
    }
  }

  lemma {:induction false} ChildrenPlaced(units: seq<Unit>, st: Partition, p: nat, j: nat, level: nat)
    requires Arena(units) && p < |units| && j <= |units| && level == Depth(units, p)
    ensures AllPlaced(units, st, RenderChildren(units, st, p, j, level))
    decreases |units| - p, 0, |units| - j, 1
  {
    if j < |units| {
      var first := if units[j].parent == Some(p) then RenderUnit(units, st, j, level + 1) else [];
      var rest := RenderChildren(units, st, p, j + 1, level);
      assert RenderChildren(units, st, p, j, level) == first + rest;
      ChildStartPlaced(units, st, p, j, level);
      ChildrenPlaced(units, st, p, j + 1, level);
      PlacedConcat(units, st, first, rest);
    }
  }

  lemma {:induction false} RootsPlaced(units: seq<Unit>, st: Partition, j: nat)
    requires Arena(units) && j <= |units|
    ensures AllPlaced(units, st, RenderRoots(units, st, j))
    decreases |units| - j
  {
    if j < |units| {
      var first := if units[j].parent.None? then RenderUnit(units, st, j, 0) else [];
      var rest := RenderRoots(units, st, j + 1);
      assert RenderRoots(units, st, j) == first + rest;
      if units[j].parent.None? {
        UnitPlaced(units, st, j, 0);
      }
      RootsPlaced(units, st, j + 1);
      PlacedConcat(units, st, first, rest);
    }
  }

  /** Every body line is indented by its unit's depth, and says "(REVOGADO)",
      the unit's text, or the alteration note, as the unit's status calls for. */
  lemma BodyPlaced(units: seq<Unit>, st: Partition)
    requires Arena(units)
    ensures AllPlaced(units, st, RenderRoots(units, st, 0))
  {
    RootsPlaced(units, st, 0);
  }

  // ---------------------------------------------------------------------------
  // _build_consolidated_text

  /** A reading of the clock. */
  datatype DateTime = DateTime(year: nat, month: nat, day: nat, hour: nat, minute: nat, second: nat)

  predicate ValidDateTime(t: DateTime) {
    1 <= t.year <= 9999 && 1 <= t.month <= 12 && 1 <= t.day <= 31
    && t.hour < 24 && t.minute < 60 && t.second < 60
  }

  /** Three fields with a separator between each. */
  function Fields(a: string, sep: char, b: string, c: string): string {
    a + [sep] + b + [sep] + c
  }

  lemma FieldsSplit(a: string, sep: char, b: string, c: string)
    ensures var s := Fields(a, sep, b, c);
      && |s| == |a| + |b| + |c| + 2
      && s[..|a|] == a && s[|a| + 1..|a| + 1 + |b|] == b && s[|a| + |b| + 2..] == c
  {
    var s := Fields(a, sep, b, c);
    assert s[..|a|] == a;
    assert s[|a| + 1..|a| + 1 + |b|] == b;
    assert s[|a| + |b| + 2..] == c;
  }

  /** The date half of the timestamp, `%d/%m/%Y`. */
  function DateField(t: DateTime): string {
    Fields(ZeroPad(t.day, 2), '/', ZeroPad(t.month, 2), ZeroPad(t.year, 4))
  }

  /** The time half of the timestamp, `%H:%M:%S`. */
  function TimeField(t: DateTime): string {
    Fields(ZeroPad(t.hour, 2), ':', ZeroPad(t.minute, 2), ZeroPad(t.second, 2))
  }

  /** `strftime('%d/%m/%Y %H:%M:%S')`. */
  function Timestamp(t: DateTime): string {
    DateField(t) + " " + TimeField(t)
  }

  lemma DateFieldReadBack(t: DateTime)
    requires ValidDateTime(t)
    ensures var d := DateField(t);
      && |d| == 10
      && ParseNat(d[..2]) == t.day && ParseNat(d[3..5]) == t.month && ParseNat(d[6..]) == t.year
  {
    assert Pow10(4) == 10000 && Pow10(2) == 100 by {
      assert Pow10(1) == 10;
    }
    ZeroPadReadBack(t.day, 2);
    ZeroPadReadBack(t.month, 2);
    ZeroPadReadBack(t.year, 4);
    FieldsSplit(ZeroPad(t.day, 2), '/', ZeroPad(t.month, 2), ZeroPad(t.year, 4));
  }

  lemma TimeFieldReadBack(t: DateTime)
    requires ValidDateTime(t)
    ensures var d := TimeField(t);
      && |d| == 8
      && ParseNat(d[..2]) == t.hour && ParseNat(d[3..5]) == t.minute && ParseNat(d[6..]) == t.second
  {
    assert Pow10(2) == 100 by {
      assert Pow10(1) == 10;
    }
    ZeroPadReadBack(t.hour, 2);
    ZeroPadReadBack(t.minute, 2);
    ZeroPadReadBack(t.second, 2);
    FieldsSplit(ZeroPad(t.hour, 2), ':', ZeroPad(t.minute, 2), ZeroPad(t.second, 2));
  }

  /** The timestamp has fixed width and each field reads back. */
  lemma TimestampReadBack(t: DateTime)
    requires ValidDateTime(t)
    ensures var s := Timestamp(t);
      && |s| == 19
      && ParseNat(s[..2]) == t.day && ParseNat(s[3..5]) == t.month && ParseNat(s[6..10]) == t.year
      && ParseNat(s[11..13]) == t.hour && ParseNat(s[14..16]) == t.minute && ParseNat(s[17..]) == t.second
  {
    var date, time := DateField(t), TimeField(t);
    DateFieldReadBack(t);
    TimeFieldReadBack(t);
    var s := Timestamp(t);
    assert s[..2] == date[..2];
    assert s[3..5] == date[3..5];
    assert s[6..10] == date[6..];
    assert s[11..13] == time[..2];
    assert s[14..16] == time[3..5];
    assert s[17..] == time[6..];
  }

  /** A rule of 80 copies of `c`. */
  function Rule(c: char): string {
    Repeat(c, 80)
  }

  /** The banner, the title `tipo Nº numero/ano`, and the ementa when there is one. */
  function HeaderLines(n: Norma): seq<string> {
    [Rule('='), n.tipo + " Nº " + n.numero + "/" + IntStr(n.ano), "TEXTO CONSOLIDADO", Rule('='), ""]
    + (if |n.ementa| > 0 then ["EMENTA: " + n.ementa, ""] else [])
  }

  const TotalLabel := "  - Total de dispositivos: "
  const RevokedLabel := "  - Dispositivos revogados: "
  const AlteredLabel := "  - Dispositivos alterados: "
  const EventsLabel := "  - Eventos processados: "
  const PublicationLabel := "  - Data de publicação: "
  const EffectiveLabel := "  - Data de vigência: "
  const StampLabel := "  - Consolidado em: "

  /** The opening of the footer: a rule, a heading and the four counts. */
  function CountLines(total: nat, revoked: nat, altered: nat, events: nat): seq<string> {
    ["", Rule('-'), "INFORMAÇÕES DE CONSOLIDAÇÃO:",
     TotalLabel + NatStr(total), RevokedLabel + NatStr(revoked),
     AlteredLabel + NatStr(altered), EventsLabel + NatStr(events)]
  }

  /** A line for each date the norma has: publication first, then effective date. */
  function DateLines(n: Norma): seq<string> {
    (if n.dataPublicacao.Some? then [PublicationLabel + DateStr(n.dataPublicacao.value)] else [])
    + (if n.dataVigencia.Some? then [EffectiveLabel + DateStr(n.dataVigencia.value)] else [])
  }

  function ClosingLines(now: DateTime): seq<string> {
    [StampLabel + Timestamp(now), Rule('=')]
  }

  /** The four counts, the dates the norma has, and the time of consolidation. */
  function FooterLines(n: Norma, total: nat, revoked: nat, altered: nat, events: nat, now: DateTime): seq<string> {
    CountLines(total, revoked, altered, events) + DateLines(n) + ClosingLines(now)
  }

  function FormatLine(l: Line): string {
    Repeat(' ', l.indent) + l.content
  }

  function FormatLines(ls: seq<Line>): (r: seq<string>)
    ensures |r| == |ls|
    ensures forall k :: 0 <= k < |ls| ==> r[k] == FormatLine(ls[k])
  {
    seq(|ls|, k requires 0 <= k < |ls| => FormatLine(ls[k]))
  }

  /** `_build_consolidated_text`: header, the units from each parentless one in
      list order, footer, joined with newlines. */
  function BuildConsolidatedText(n: Norma, units: seq<Unit>, st: Partition, events: nat, now: DateTime): string
    requires Arena(units)
  {
    JoinLines(HeaderLines(n) + FormatLines(RenderRoots(units, st, 0))
              + FooterLines(n, |units|, |st.revoked|, |st.altered|, events, now))
  }

  // ---------------------------------------------------------------------------
  // The engine: consolidate and get_statistics

  /** The engine's fields after construction or a `consolidate` call. */
  datatype Engine = Engine(norma: Norma, dispositivos: seq<Unit>, eventos: seq<Evento>, changes: Partition)

  function NewEngine(n: Norma): Engine {
    Engine(n, [], [], NoChanges)
  }

  datatype Outcome = Outcome(text: string, engine: Engine)

  /** `consolidate`, given what `_load_dispositivos` and `_load_eventos` return
      and the clock reading. With no dispositivos it returns the original text
      and never loads the events. */
  function Consolidate(e: Engine, units: seq<Unit>, events: seq<Evento>, now: DateTime): Outcome
    requires Arena(units)
  {
    if |units| == 0 then Outcome(e.norma.textoOriginal, e.(dispositivos := []))
    else
      var ch := ProcessEventos(e.changes, events);
      Outcome(BuildConsolidatedText(e.norma, units, ch, |events|, now), Engine(e.norma, units, events, ch))
  }

  datatype Statistics = Statistics(
    totalDispositivos: nat,
    revokedCount: nat,
    alteredCount: nat,
    eventsProcessed: nat,
    normaStr: string)

  /** `get_statistics`: the sizes of the engine's four collections and `str(norma)`. */
  function GetStatistics(e: Engine): Statistics {
    Statistics(|e.dispositivos|, |e.changes.revoked|, |e.changes.altered|, |e.eventos|, NormaStr(e.norma))
  }

  /** The ids REVOGA events target, and those ALTERA events target. */
  function RevokedTargets(events: seq<Evento>): set<int> {
    set e | e in events && e.target.Some? && e.acao == Extractor.Revoga :: e.target.value
  }

  function AlteredTargets(events: seq<Evento>): set<int> {
    set e | e in events && e.target.Some? && e.acao == Extractor.Altera :: e.target.value
  }

  /** On a fresh engine the statistics count the distinct revoked and altered
      targets, all the events and all the dispositivos. */
  lemma FreshStatistics(n: Norma, units: seq<Unit>, events: seq<Evento>, now: DateTime)
    requires Arena(units) && |units| > 0
    ensures var s := GetStatistics(Consolidate(NewEngine(n), units, events, now).engine);
      && s.totalDispositivos == |units|
      && s.revokedCount == |RevokedTargets(events)|
      && s.alteredCount == |AlteredTargets(events)|
      && s.eventsProcessed == |events|
      && s.normaStr == NormaStr(n)
  {
    var ch := ProcessEventos(NoChanges, events);
    forall id ensures id in ch.revoked <==> id in RevokedTargets(events) {
      RevokedMeaning(NoChanges, events, id);
      if id in RevokedTargets(events) {
        var e :| e in events && e.target.Some? && e.acao == Extractor.Revoga && e.target.value == id;
        assert IsRevocationOf(e, id);
      }
    }
    forall id ensures id in ch.altered <==> id in AlteredTargets(events) {
      AlteredKeys(NoChanges, events, id);
      if id in AlteredTargets(events) {
        var e :| e in events && e.target.Some? && e.acao == Extractor.Altera && e.target.value == id;
        assert IsAlterationOf(e, id);
      }
    }
    assert ch.revoked == RevokedTargets(events);
    assert ch.altered.Keys == AlteredTargets(events);
  }

  /** With no dispositivos the result is the original text, nothing is counted
      but what an earlier run left, and the events are not reloaded. */
  lemma ConsolidateNoUnits(e: Engine, events: seq<Evento>, now: DateTime)
    ensures var r := Consolidate(e, [], events, now);
      && r.text == e.norma.textoOriginal
      && r.engine.changes == e.changes && r.engine.eventos == e.eventos
      && GetStatistics(r.engine).totalDispositivos == 0
    ensures var s := GetStatistics(Consolidate(NewEngine(e.norma), [], events, now).engine);
      s.revokedCount == 0 && s.alteredCount == 0 && s.eventsProcessed == 0
  {
  }

  /** `consolidate` is idempotent for one clock reading: running it again on
      the engine it leaves, with the same dispositivos and events, gives the
      same text and the same engine. */
  lemma ConsolidateTwice(e: Engine, units: seq<Unit>, events: seq<Evento>, now: DateTime)
    requires Arena(units)
    ensures var o := Consolidate(e, units, events, now);
      Consolidate(o.engine, units, events, now) == o
  {
    if |units| > 0 {
      ProcessTwice(e.changes, events);
    }
  }

  // ---------------------------------------------------------------------------
  // Reading the footer back

  lemma DigitsOneLine(s: string)
    requires forall i :: 0 <= i < |s| ==> IsDigit(s[i])
    ensures '\n' !in s
  {
    assert forall i :: 0 <= i < |s| ==> s[i] != '\n';
  }

  lemma DateStrOneLine(d: Date)
    ensures '\n' !in DateStr(d)
  {
    DigitsOneLine(ZeroPad(d.year, 4));
    DigitsOneLine(ZeroPad(d.month, 2));
    DigitsOneLine(ZeroPad(d.day, 2));
  }

  lemma TimestampOneLine(t: DateTime)
    ensures '\n' !in Timestamp(t)
  {
    DigitsOneLine(ZeroPad(t.day, 2));
    DigitsOneLine(ZeroPad(t.month, 2));
    DigitsOneLine(ZeroPad(t.year, 4));
    DigitsOneLine(ZeroPad(t.hour, 2));
    DigitsOneLine(ZeroPad(t.minute, 2));
    DigitsOneLine(ZeroPad(t.second, 2));
  }

  predicate OneLineEach(ls: seq<string>) {
    forall k :: 0 <= k < |ls| ==> '\n' !in ls[k]
  }

  lemma OneLineConcat(a: seq<string>, b: seq<string>)
    requires OneLineEach(a) && OneLineEach(b)
    ensures OneLineEach(a + b)
  {
    forall k | 0 <= k < |a + b| ensures '\n' !in (a + b)[k] {
      if k >= |a| {
        assert (a + b)[k] == b[k - |a|];
      }
    }
  }

  lemma LabelledOneLine(prefix: string, v: string)
    requires '\n' !in prefix && '\n' !in v
    ensures '\n' !in prefix + v
  {
  }

  /** The count labels of the footer are single lines. */
  lemma CountLabelsOneLine()
    ensures '\n' !in TotalLabel
    ensures '\n' !in RevokedLabel
    ensures '\n' !in AlteredLabel
    ensures '\n' !in EventsLabel
  {
  }

  /** The footer's header, date and stamp labels are single lines. */
  lemma OtherLabelsOneLine()
    ensures '\n' !in "INFORMAÇÕES DE CONSOLIDAÇÃO:"
    ensures '\n' !in PublicationLabel
    ensures '\n' !in EffectiveLabel
    ensures '\n' !in StampLabel
  {
  }

  lemma RuleOneLine(c: char)
    requires c != '\n'
    ensures '\n' !in Rule(c)
  {
    assert forall i :: 0 <= i < |Rule(c)| ==> Rule(c)[i] != '\n';
  }

  lemma CountLinesOneLine(total: nat, revoked: nat, altered: nat, events: nat)
    ensures OneLineEach(CountLines(total, revoked, altered, events))
  {
    CountLabelsOneLine();
    OtherLabelsOneLine();
    RuleOneLine('-');
    DigitsOneLine(NatStr(total));
    DigitsOneLine(NatStr(revoked));
    DigitsOneLine(NatStr(altered));
    DigitsOneLine(NatStr(events));
    LabelledOneLine(TotalLabel, NatStr(total));
    LabelledOneLine(RevokedLabel, NatStr(revoked));
    LabelledOneLine(AlteredLabel, NatStr(altered));
    LabelledOneLine(EventsLabel, NatStr(events));
  }

  lemma DateLinesOneLine(n: Norma)
    ensures OneLineEach(DateLines(n))
  {
    OtherLabelsOneLine();
    if n.dataPublicacao.Some? {
      DateStrOneLine(n.dataPublicacao.value);
      LabelledOneLine(PublicationLabel, DateStr(n.dataPublicacao.value));
    }
    if n.dataVigencia.Some? {
      DateStrOneLine(n.dataVigencia.value);
      LabelledOneLine(EffectiveLabel, DateStr(n.dataVigencia.value));
    }
  }

  lemma ClosingLinesOneLine(now: DateTime)
    ensures OneLineEach(ClosingLines(now))
  {
    OtherLabelsOneLine();
    RuleOneLine('=');
    TimestampOneLine(now);
    LabelledOneLine(StampLabel, Timestamp(now));
  }

  /** No footer line holds a newline. */
  lemma FooterOneLine(n: Norma, total: nat, revoked: nat, altered: nat, events: nat, now: DateTime)
    ensures OneLineEach(FooterLines(n, total, revoked, altered, events, now))
  {
    var counts := CountLines(total, revoked, altered, events);
    CountLinesOneLine(total, revoked, altered, events);
    DateLinesOneLine(n);
    ClosingLinesOneLine(now);
    OneLineConcat(counts, DateLines(n));
    OneLineConcat(counts + DateLines(n), ClosingLines(now));
  }

  /** The footer's four count lines print the four counts of `st`. */
  predicate PrintsCounts(foot: seq<string>, st: Statistics) {
    && |foot| >= 7
    && |TotalLabel| <= |foot[3]| && |RevokedLabel| <= |foot[4]|
    && |AlteredLabel| <= |foot[5]| && |EventsLabel| <= |foot[6]|
    && (forall i :: |TotalLabel| <= i < |foot[3]| ==> IsDigit(foot[3][i]))
    && (forall i :: |RevokedLabel| <= i < |foot[4]| ==> IsDigit(foot[4][i]))
    && (forall i :: |AlteredLabel| <= i < |foot[5]| ==> IsDigit(foot[5][i]))
    && (forall i :: |EventsLabel| <= i < |foot[6]| ==> IsDigit(foot[6][i]))
    && ParseNat(foot[3][|TotalLabel|..]) == st.totalDispositivos
    && ParseNat(foot[4][|RevokedLabel|..]) == st.revokedCount
    && ParseNat(foot[5][|AlteredLabel|..]) == st.alteredCount
    && ParseNat(foot[6][|EventsLabel|..]) == st.eventsProcessed
  }

  /** The last `|foot|` newline-separated pieces of `text` are the lines of
      `foot`: the text ends with a newline followed by those lines, none of
      which holds a newline. */
  predicate EndsWithLines(text: string, foot: seq<string>) {
    var tail := "\n" + JoinLines(foot);
    OneLineEach(foot) && |tail| <= |text| && text[|text| - |tail|..] == tail
  }

  /** The counts printed in the footer read back to the numbers given. */
  lemma FooterCounts(n: Norma, st: Statistics, now: DateTime)
    ensures PrintsCounts(FooterLines(n, st.totalDispositivos, st.revokedCount, st.alteredCount, st.eventsProcessed, now), st)
  {
    var foot := FooterLines(n, st.totalDispositivos, st.revokedCount, st.alteredCount, st.eventsProcessed, now);
    assert foot[3][|TotalLabel|..] == NatStr(st.totalDispositivos);
    assert foot[4][|RevokedLabel|..] == NatStr(st.revokedCount);
    assert foot[5][|AlteredLabel|..] == NatStr(st.alteredCount);
    assert foot[6][|EventsLabel|..] == NatStr(st.eventsProcessed);
    ParseNatStr(st.totalDispositivos);
    ParseNatStr(st.revokedCount);
    ParseNatStr(st.alteredCount);
    ParseNatStr(st.eventsProcessed);
  }

  /** Newline-free trailing lines are the last lines of the joined text. */
  lemma TailLines(head: seq<string>, foot: seq<string>)
    requires |head| >= 1 && |foot| >= 1
    requires OneLineEach(foot)
    ensures EndsWithLines(JoinLines(head + foot), foot)
  {
    JoinLinesTail(head, foot);
  }

  /** The text ends with the footer, and the statistics `get_statistics`
      reports after the run are the numbers the footer prints. */
  lemma ConsolidateFooterReadBack(e: Engine, units: seq<Unit>, events: seq<Evento>, now: DateTime)
    requires Arena(units) && |units| > 0
    ensures var r := Consolidate(e, units, events, now);
      var st := GetStatistics(r.engine);
      var foot := FooterLines(e.norma, st.totalDispositivos, st.revokedCount, st.alteredCount, st.eventsProcessed, now);
      EndsWithLines(r.text, foot) && PrintsCounts(foot, st)
  {
    var ch := ProcessEventos(e.changes, events);
    var st := Statistics(|units|, |ch.revoked|, |ch.altered|, |events|, NormaStr(e.norma));
    assert GetStatistics(Consolidate(e, units, events, now).engine) == st;
    var head := HeaderLines(e.norma) + FormatLines(RenderRoots(units, ch, 0));
    var foot := FooterLines(e.norma, |units|, |ch.revoked|, |ch.altered|, |events|, now);
    assert Consolidate(e, units, events, now).text == JoinLines(head + foot);
    FooterOneLine(e.norma, |units|, |ch.revoked|, |ch.altered|, |events|, now);
    FooterCounts(e.norma, st, now);
    TailLines(head, foot);
  }

  // ---------------------------------------------------------------------------
  // The date lines

  predicate StartsWith(s: string, p: string) {
    |p| <= |s| && s[..|p|] == p
  }

  lemma Differ(s: string, p: string, i: nat)
    requires i < |p| && (i >= |s| || s[i] != p[i])
    ensures !StartsWith(s, p)
  {
  }

  lemma LabelledDiffer(prefix: string, v: string, p: string, i: nat)
    requires i < |prefix| && i < |p| && prefix[i] != p[i]
    ensures !StartsWith(prefix + v, p)
  {
    Differ(prefix + v, p, i);
  }

  /** No line before the dates starts with a date label. */
  lemma CountLineNoDate(total: nat, revoked: nat, altered: nat, events: nat, p: string, k: nat)
    requires p == PublicationLabel || p == EffectiveLabel
    requires k < 7
    ensures !StartsWith(CountLines(total, revoked, altered, events)[k], p)
  {
    assert p[0] == ' ' && p[4] == 'D' && p[5] == 'a';
    var ls := CountLines(total, revoked, altered, events);
    if k == 0 {
      Differ(ls[0], p, 0);
    } else if k == 1 {
      Differ(ls[1], p, 0);
    } else if k == 2 {
      Differ(ls[2], p, 0);
    } else if k == 3 {
      LabelledDiffer(TotalLabel, NatStr(total), p, 4);
    } else if k == 4 {
      LabelledDiffer(RevokedLabel, NatStr(revoked), p, 5);
    } else if k == 5 {
      LabelledDiffer(AlteredLabel, NatStr(altered), p, 5);
    } else {
      LabelledDiffer(EventsLabel, NatStr(events), p, 4);
    }
  }

  /** The two closing lines start with neither date label. */
  lemma ClosingLineNoDate(now: DateTime, p: string, k: nat)
    requires p == PublicationLabel || p == EffectiveLabel
    requires k < 2
    ensures !StartsWith(ClosingLines(now)[k], p)
  {
    assert p[0] == ' ' && p[4] == 'D';
    if k == 0 {
      LabelledDiffer(StampLabel, Timestamp(now), p, 4);
    } else {
      Differ(Rule('='), p, 0);
    }
  }

  /** The date lines: the publication line comes first when there is one. */
  lemma DateLinesShape(n: Norma)
    ensures var d := DateLines(n);
      && |d| == (if n.dataPublicacao.Some? then 1 else 0) + (if n.dataVigencia.Some? then 1 else 0)
      && (n.dataPublicacao.Some? ==> d[0] == PublicationLabel + DateStr(n.dataPublicacao.value))
      && (n.dataVigencia.Some? ==> d[|d| - 1] == EffectiveLabel + DateStr(n.dataVigencia.value))
      && (forall k :: 0 <= k < |d| && StartsWith(d[k], PublicationLabel) ==> n.dataPublicacao.Some? && k == 0)
      && (forall k :: 0 <= k < |d| && StartsWith(d[k], EffectiveLabel) ==> n.dataVigencia.Some? && k == |d| - 1)
  {
    var d := DateLines(n);
    if n.dataPublicacao.Some? {
      LabelledDiffer(PublicationLabel, DateStr(n.dataPublicacao.value), EffectiveLabel, 12);
    }
    if n.dataVigencia.Some? {
      LabelledDiffer(EffectiveLabel, DateStr(n.dataVigencia.value), PublicationLabel, 12);
    }
  }

  /** A footer line that starts with a date label is one of the date lines. */
  lemma FooterLabelIsDate(n: Norma, total: nat, revoked: nat, altered: nat, events: nat, now: DateTime, p: string, k: nat)
    requires p == PublicationLabel || p == EffectiveLabel
    requires k < |FooterLines(n, total, revoked, altered, events, now)|
    requires StartsWith(FooterLines(n, total, revoked, altered, events, now)[k], p)
    ensures 7 <= k < 7 + |DateLines(n)| && StartsWith(DateLines(n)[k - 7], p)
  {
    var counts, dates, closing := CountLines(total, revoked, altered, events), DateLines(n), ClosingLines(now);
    var foot := FooterLines(n, total, revoked, altered, events, now);
    assert foot == counts + dates + closing;
    if k < 7 {
      assert foot[k] == counts[k];
      CountLineNoDate(total, revoked, altered, events, p, k);
    } else if k >= 7 + |dates| {
      assert foot[k] == closing[k - 7 - |dates|];
      ClosingLineNoDate(now, p, k - 7 - |dates|);
    } else {
      assert foot[k] == dates[k - 7];
    }
  }

  /** The footer has a publication line exactly when the norma has a
      publication date, and an effective-date line exactly when it has an
      effective date; each prints its date. */
  lemma FooterDates(n: Norma, total: nat, revoked: nat, altered: nat, events: nat, now: DateTime)
    ensures var foot := FooterLines(n, total, revoked, altered, events, now);
      && ((exists k :: 0 <= k < |foot| && StartsWith(foot[k], PublicationLabel)) <==> n.dataPublicacao.Some?)
      && ((exists k :: 0 <= k < |foot| && StartsWith(foot[k], EffectiveLabel)) <==> n.dataVigencia.Some?)
      && (n.dataPublicacao.Some? ==> foot[7] == PublicationLabel + DateStr(n.dataPublicacao.value))
      && (n.dataVigencia.Some? ==>
            foot[if n.dataPublicacao.Some? then 8 else 7] == EffectiveLabel + DateStr(n.dataVigencia.value))
  {
    var counts, dates, closing := CountLines(total, revoked, altered, events), DateLines(n), ClosingLines(now);
    var foot := FooterLines(n, total, revoked, altered, events, now);
    assert foot == counts + dates + closing;
    DateLinesShape(n);
    if n.dataPublicacao.Some? {
      assert foot[7] == dates[0];
      assert StartsWith(foot[7], PublicationLabel);
    }
    if n.dataVigencia.Some? {
      assert foot[7 + |dates| - 1] == dates[|dates| - 1];
      assert StartsWith(foot[7 + |dates| - 1], EffectiveLabel);
    }
    forall k, p | 0 <= k < |foot| && (p == PublicationLabel || p == EffectiveLabel) && StartsWith(foot[k], p)
      ensures 7 <= k < 7 + |dates| && StartsWith(dates[k - 7], p)
    {
      FooterLabelIsDate(n, total, revoked, altered, events, now, p, k);
    }
  }
}
