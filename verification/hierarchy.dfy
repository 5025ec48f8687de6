/**
  `LegalTextParser.build_hierarchy`: one pass over the parsed elements that
  remembers the index of the last article, the last paragraph and the last
  inciso, and gives every element a parent index from those three slots.

  The pass is related to an independent description of the result: the parent
  of an element is the nearest element before it whose rank is strictly higher
  (article above paragraph above inciso above alínea), and an article has none.
*/
module Hierarchy {
  import opened Wrappers
  import opened Segmenter

  /** Depth of each kind: article 0, paragraph 1, inciso 2, alínea 3. */
  function Level(k: ElementKind): nat {
    match k
    case Artigo => 0
    case Paragrafo => 1
    case Inciso => 2
    case Alinea => 3
  }

  // ---------------------------------------------------------------------------
  // The reference: nearest preceding element up to a given level

  /** The largest `j < i` whose element has level at most `lvl`, if any. */
  function Nearest(elems: seq<Element>, i: nat, lvl: int): (r: Option<nat>)
    requires i <= |elems|
    ensures r.Some? ==> r.value < i && Level(elems[r.value].kind) <= lvl
  {
    if i == 0 then None
    else if Level(elems[i - 1].kind) <= lvl then Some(i - 1)
    else Nearest(elems, i - 1, lvl)
  }

  /** `Nearest` finds nothing exactly when no earlier element qualifies, and
      otherwise no element between its answer and `i` qualifies. */
  lemma {:induction false} NearestMeaning(elems: seq<Element>, i: nat, lvl: int)
    requires i <= |elems|
    ensures Nearest(elems, i, lvl).None? <==> forall j :: 0 <= j < i ==> Level(elems[j].kind) > lvl
    ensures Nearest(elems, i, lvl).Some? ==>
              forall j :: Nearest(elems, i, lvl).value < j < i ==> Level(elems[j].kind) > lvl
  {
    if i > 0 && Level(elems[i - 1].kind) > lvl {
      NearestMeaning(elems, i - 1, lvl);
    }
  }

  /** What the parent should be: nothing for an article, otherwise the nearest
      preceding element of strictly lower level. */
  function ExpectedParent(elems: seq<Element>, i: nat): Option<nat>
    requires i < |elems|
  {
    if elems[i].kind == Artigo then None else Nearest(elems, i, Level(elems[i].kind) - 1)
  }

  // ---------------------------------------------------------------------------
  // The pass itself

  /** `last_article_idx`, `last_paragrafo_idx`, `last_inciso_idx`. */
  datatype Slots = Slots(article: Option<nat>, paragraph: Option<nat>, inciso: Option<nat>)

  /** The slot updates made after element `i` of kind `k` is placed. */
  function Step(s: Slots, i: nat, k: ElementKind): Slots {
    match k
    case Artigo => Slots(Some(i), None, None)
    case Paragrafo => Slots(s.article, Some(i), None)
    case Inciso => Slots(s.article, s.paragraph, Some(i))
    case Alinea => s
  }

  /** The parent chosen for an element of kind `k` from the current slots: the
      first slot set among those of strictly higher rank, nearest rank first. */
  function ParentFrom(s: Slots, k: ElementKind): Option<nat> {
    match k
    case Artigo => None
    case Paragrafo => s.article
    case Inciso => if s.paragraph.Some? then s.paragraph else s.article
    case Alinea =>
      if s.inciso.Some? then s.inciso
      else if s.paragraph.Some? then s.paragraph
      else s.article
  }

  /** The slots when the loop reaches index `i`: every earlier element folded in. */
  function SlotsBefore(elems: seq<Element>, i: nat): Slots
    requires i <= |elems|
  {
    if i == 0 then Slots(None, None, None)
    else Step(SlotsBefore(elems, i - 1), i - 1, elems[i - 1].kind)
  }

  /** `Some(j)` when `o` names an element of kind `k`, otherwise `None`. */
  function IfKind(elems: seq<Element>, o: Option<nat>, k: ElementKind): Option<nat>
    requires o.Some? ==> o.value < |elems|
  {
    if o.Some? && elems[o.value].kind == k then o else None
  }

  /** What each slot holds at index `i`: the last article; the last paragraph
      if no article came after it; the last inciso if no article or paragraph
      came after it. */
  lemma {:induction false} SlotsMeaning(elems: seq<Element>, i: nat)
    requires i <= |elems|
    ensures SlotsBefore(elems, i).article == Nearest(elems, i, 0)
    ensures SlotsBefore(elems, i).paragraph == IfKind(elems, Nearest(elems, i, 1), Paragrafo)
    ensures SlotsBefore(elems, i).inciso == IfKind(elems, Nearest(elems, i, 2), Inciso)
  {
    if i > 0 {
      SlotsMeaning(elems, i - 1);
    }
  }

  /** Looking for a lower level finds the same element when the nearest one
      already qualifies, and nothing when no element qualifies for the higher one. */
  lemma {:induction false} NearestNarrow(elems: seq<Element>, i: nat, lo: int, hi: int)
    requires i <= |elems| && lo <= hi
    ensures Nearest(elems, i, hi).None? ==> Nearest(elems, i, lo).None?
    ensures Nearest(elems, i, hi).Some? && Level(elems[Nearest(elems, i, hi).value].kind) <= lo ==>
              Nearest(elems, i, lo) == Nearest(elems, i, hi)
  {
    if i > 0 && Level(elems[i - 1].kind) > hi {
      NearestNarrow(elems, i - 1, lo, hi);
    }
  }

  /** The slot rule picks exactly the nearest preceding element of higher rank. */
  lemma ParentFromMeaning(elems: seq<Element>, i: nat)
    requires i < |elems|
    ensures ParentFrom(SlotsBefore(elems, i), elems[i].kind) == ExpectedParent(elems, i)
  {
    SlotsMeaning(elems, i);
    match elems[i].kind
    case Artigo =>
    case Paragrafo =>
    case Inciso =>
      NearestNarrow(elems, i, 0, 1);
    case Alinea =>
      NearestNarrow(elems, i, 0, 2);
      NearestNarrow(elems, i, 1, 2);
      NearestNarrow(elems, i, 0, 1);
  }

  /** One entry of the result: a copy of the element with `index` and `parent_index`. */
  datatype Node = Node(element: Element, index: nat, parentIndex: Option<nat>)

  /** `build_hierarchy`: each element with its index and the parent the slots give.
      Articles are roots; every other element hangs under the nearest earlier
      element of strictly higher rank, and has no parent when there is none. */
  function BuildHierarchy(elems: seq<Element>): (r: seq<Node>)
    ensures |r| == |elems|
    ensures forall i :: 0 <= i < |r| ==> r[i].element == elems[i] && r[i].index == i
    ensures forall i :: 0 <= i < |r| ==> r[i].parentIndex == ExpectedParent(elems, i)
    ensures forall i :: 0 <= i < |r| && elems[i].kind == Artigo ==> r[i].parentIndex.None?
    ensures forall i :: 0 <= i < |r| && r[i].parentIndex.Some? ==>
              r[i].parentIndex.value < i
              && Level(elems[r[i].parentIndex.value].kind) < Level(elems[i].kind)
              && forall j :: r[i].parentIndex.value < j < i ==> Level(elems[j].kind) >= Level(elems[i].kind)
    ensures forall i :: 0 <= i < |r| && elems[i].kind != Artigo && r[i].parentIndex.None? ==>
              forall j :: 0 <= j < i ==> Level(elems[j].kind) >= Level(elems[i].kind)
  {
    var r := seq(|elems|, i requires 0 <= i < |elems| => Node(elems[i], i, ParentFrom(SlotsBefore(elems, i), elems[i].kind)));
    forall i | 0 <= i < |elems|
      ensures r[i].parentIndex == ExpectedParent(elems, i)
      ensures elems[i].kind != Artigo ==> NearestMeaningHolds(elems, i, Level(elems[i].kind) - 1)
    {
      ParentFromMeaning(elems, i);
      if elems[i].kind != Artigo {
        NearestMeaning(elems, i, Level(elems[i].kind) - 1);
      }
    }
    r
  }

  /** The two facts `NearestMeaning` establishes, as one predicate. */
  predicate NearestMeaningHolds(elems: seq<Element>, i: nat, lvl: int)
    requires i <= |elems|
  {
    && (Nearest(elems, i, lvl).None? ==> forall j :: 0 <= j < i ==> Level(elems[j].kind) > lvl)
    && (Nearest(elems, i, lvl).Some? ==>
          forall j :: Nearest(elems, i, lvl).value < j < i ==> Level(elems[j].kind) > lvl)
  }

  /** An alínea is never anyone's parent: only articles, paragraphs and incisos are. */
  lemma AlineaNeverParent(elems: seq<Element>, i: nat)
    requires i < |elems|
    requires BuildHierarchy(elems)[i].parentIndex.Some?
    ensures elems[BuildHierarchy(elems)[i].parentIndex.value].kind != Alinea
  {
    var r := BuildHierarchy(elems);
    var p := r[i].parentIndex.value;
    assert Level(elems[p].kind) < Level(elems[i].kind);
  }

  /** An element right after one of higher rank hangs under it. */
  lemma ParentOfNext(elems: seq<Element>, i: nat)
    requires 0 < i < |elems|
    requires Level(elems[i - 1].kind) < Level(elems[i].kind)
    ensures BuildHierarchy(elems)[i].parentIndex == Some(i - 1)
  {
    var r := BuildHierarchy(elems);
    assert r[i].parentIndex == ExpectedParent(elems, i);
    assert elems[i].kind != Artigo;
  }
}
