/** Whole runs of a program that creates, moves and destroys protectors. */
module ProtectorRuns {
  import opened Words
  import opened MemoryProtector

  /** The fields of a protector. */
  datatype Handle = Handle(address: nat, size: nat, oldProtection: nat, isSet: bool)

  datatype Event =
    | Construct(id: nat, address: nat, size: nat, flags: nat, permitted: bool)
    | Move(from: nat, to: nat)
    | Destroy(id: nat, permitted: bool)

  /** A change that has been made and not undone: the protector that will undo it, and its number. */
  datatype Duty = Duty(id: nat, change: nat)

  /** Beside the pages and the live objects, a world records what happened: how many changes were made,
      the open duties in the order of their changes, and the changes undone so far. */
  datatype World = World(pages: PageMap, objects: map<nat, Handle>, duties: seq<Duty>, made: nat, undone: seq<nat>)

  function DutyIndex(duties: seq<Duty>, id: nat): (k: nat)
    ensures k <= |duties|
    ensures k < |duties| ==> duties[k].id == id
    ensures forall j :: 0 <= j < k ==> duties[j].id != id
  {
    if duties == [] || duties[0].id == id then 0 else 1 + DutyIndex(duties[1..], id)
  }

  function Without<T>(s: seq<T>, k: nat): (r: seq<T>)
    requires k < |s|
    ensures |r| == |s| - 1
    ensures forall j :: 0 <= j < k ==> r[j] == s[j]
    ensures forall j :: k <= j < |r| ==> r[j] == s[j + 1]
  {
    seq(|s| - 1, j requires 0 <= j < |s| - 1 => if j < k then s[j] else s[j + 1])
  }

  // ----- one event

  /** The events a program can cause: objects are created once, and moved and destroyed while they live. */
  ghost predicate Possible(p: nat, w: World, e: Event) {
    match e
    case Construct(id, address, size, _, _) => id !in w.objects && Request(p, address, size)
    case Move(from, to) => from in w.objects && to !in w.objects
    case Destroy(id, _) => id in w.objects
  }

  /** The page is one of those the protector changes. */
  predicate Touches(p: nat, h: Handle, page: nat) {
    0 < p <= LIMIT64 && FirstPage(p, h.address) <= page < FirstPage(p, h.address) + PageCount(p, h.size)
  }

  ghost predicate Disjoint(p: nat, h: Handle, g: Handle) {
    forall page :: !(Touches(p, h, page) && Touches(p, g, page))
  }

  /** The discipline of a run: pages that are changed had one protection, a protector ends only after those
      that overlap it and came later, and the kernel does not refuse to restore. */
  ghost predicate Disciplined(p: nat, w: World, e: Event)
    requires Possible(p, w, e)
  {
    match e
    case Construct(_, address, size, flags, permitted) =>
      var o := Protect(w.pages, p, address, size, ToSystemProt(flags), permitted);
      o.isSet ==> Uniform(w.pages, FirstPage(p, address), PageCount(p, size), o.oldProtection)
    case Move(_, _) =>
      true
    case Destroy(id, permitted) =>
      && (w.objects[id].isSet ==> permitted)
      && var k := DutyIndex(w.duties, id);
         forall j :: k < j < |w.duties| && w.duties[j].id in w.objects ==>
           Disjoint(p, w.objects[id], w.objects[w.duties[j].id])
  }

  /** The discipline in pages: a creation that succeeds must find one protection on the pages it changes, a move
      is free, and the protector of the latest open change may always end if the kernel lets it restore. */
  lemma DisciplineMeaning(p: nat, w: World, e: Event)
    requires Possible(p, w, e) && p > 0
    ensures e.Construct? ==>
              var first := e.address / p;
              var count := if e.size + p <= 0x1_0000_0000_0000_0000 then (e.size + p - 1) / p else 0;
              Disciplined(p, w, e) <==>
                (e.permitted && first in w.pages && (forall q :: first <= q < first + count ==> q in w.pages) ==>
                  forall q :: first <= q < first + count ==> w.pages[q] == w.pages[first])
    ensures e.Move? ==> Disciplined(p, w, e)
    ensures e.Destroy? && e.permitted && DutyIndex(w.duties, e.id) >= |w.duties| - 1 ==> Disciplined(p, w, e)
  {
    if e.Construct? {
      ProtectMeaning(w.pages, p, e.address, e.size, ToSystemProt(e.flags), e.permitted);
      PagesOfRequest(p, e.address, e.size);
    }
  }

  /** The pages a protector changes are those from the page of its address on, as many as its size rounds up to. */
  lemma TouchesMeaning(p: nat, h: Handle, page: nat)
    requires Request(p, h.address, h.size)
    ensures p > 0
    ensures var count := if h.size + p <= 0x1_0000_0000_0000_0000 then (h.size + p - 1) / p else 0;
            Touches(p, h, page) <==> h.address / p <= page < h.address / p + count
  {
    PagesOfRequest(p, h.address, h.size);
  }

  ghost predicate Allowed(p: nat, w: World, e: Event) { Possible(p, w, e) && Disciplined(p, w, e) }

  type Objects = map<nat, Handle>

  /** The object and, if the change was made, its duty. */
  function Constructed(w: World, id: nat, h: Handle, pages: PageMap): World {
    var w' := w.(pages := pages, objects := w.objects[id := h]);
    if h.isSet then w'.(duties := w.duties + [Duty(id, w.made)], made := w.made + 1) else w'
  }

  function HandedOver(objects: Objects, from: nat, to: nat): Objects
    requires from in objects
  {
    objects[to := objects[from]][from := objects[from].(isSet := false)]
  }

  function Passed(duties: seq<Duty>, from: nat, to: nat): seq<Duty> {
    var k := DutyIndex(duties, from);
    if k < |duties| then duties[k := Duty(to, duties[k].change)] else duties
  }

  /** The duty passes to the new object. */
  function Moved(w: World, from: nat, to: nat): World
    requires from in w.objects
  {
    w.(objects := HandedOver(w.objects, from, to), duties := Passed(w.duties, from, to))
  }

  /** The object is gone, and with it its duty. The change is undone unless the kernel refuses. */
  function Destroyed(p: nat, w: World, id: nat, permitted: bool): World
    requires id in w.objects && 0 < p <= LIMIT64
  {
    var h, k := w.objects[id], DutyIndex(w.duties, id);
    var w' := w.(objects := w.objects - {id});
    if !h.isSet then w' else
    var w'' := w'.(pages := Restored(w.pages, p, h.address, h.size, h.oldProtection, permitted));
    if k < |w.duties| then
      w''.(duties := Without(w.duties, k), undone := w.undone + if permitted then [w.duties[k].change] else [])
    else
      w''
  }

  ghost function Step(p: nat, w: World, e: Event): World
    requires Possible(p, w, e) && 0 < p <= LIMIT64
  {
    match e
    case Construct(id, address, size, flags, permitted) =>
      var o := Protect(w.pages, p, address, size, ToSystemProt(flags), permitted);
      Constructed(w, id, Handle(address, size, o.oldProtection, o.isSet), o.pages)
    case Move(from, to) =>
      Moved(w, from, to)
    case Destroy(id, permitted) =>
      Destroyed(p, w, id, permitted)
  }

  // ----- the invariant

  function ChangesOf(duties: seq<Duty>): (c: seq<nat>)
    ensures |c| == |duties|
    ensures forall k :: 0 <= k < |duties| ==> c[k] == duties[k].change
  {
    seq(|duties|, k requires 0 <= k < |duties| => duties[k].change)
  }

  function Numbers(n: nat): seq<nat> { seq(n, k => k) }

  /** The set protectors are exactly those with a duty, and each has one. */
  ghost predicate Owned(objects: Objects, duties: seq<Duty>) {
    && (forall i, j :: 0 <= i < j < |duties| ==> duties[i].id != duties[j].id)
    && (forall k :: 0 <= k < |duties| ==> duties[k].id in objects && objects[duties[k].id].isSet)
    && (forall id :: id in objects && objects[id].isSet ==> DutyIndex(duties, id) < |duties|)
  }

  function HandlesOf(objects: Objects, duties: seq<Duty>): (hs: seq<Handle>)
    requires forall k :: 0 <= k < |duties| ==> duties[k].id in objects
    ensures |hs| == |duties|
    ensures forall k :: 0 <= k < |duties| ==> hs[k] == objects[duties[k].id]
  {
    seq(|duties|, k requires 0 <= k < |duties| => objects[duties[k].id])
  }

  predicate Covers(p: nat, pages: PageMap, h: Handle) {
    0 < p <= LIMIT64 ==> Mapped(pages, FirstPage(p, h.address), PageCount(p, h.size))
  }

  function Undone(p: nat, pages: PageMap, h: Handle): PageMap
    requires 0 < p <= LIMIT64
  {
    Restored(pages, p, h.address, h.size, h.oldProtection, true)
  }

  /** The pages after undoing the open changes, the latest first. */
  function UndoAll(p: nat, hs: seq<Handle>, pages: PageMap): PageMap
    requires 0 < p <= LIMIT64
  {
    if hs == [] then pages else UndoAll(p, hs[..|hs| - 1], Undone(p, pages, hs[|hs| - 1]))
  }

  /** Every change made has been undone once or still has a duty, and not both. */
  ghost predicate Counted(undone: seq<nat>, duties: seq<Duty>, made: nat) {
    multiset(undone) + multiset(ChangesOf(duties)) == multiset(Numbers(made))
  }

  /** Undoing the open changes from the latest to the first gives the initial pages. */
  ghost predicate Recoverable(p: nat, initial: PageMap, hs: seq<Handle>, pages: PageMap)
    requires 0 < p <= LIMIT64
  {
    && (forall k :: 0 <= k < |hs| ==> Covers(p, pages, hs[k]))
    && UndoAll(p, hs, pages) == initial
  }

  ghost predicate Invariant(p: nat, initial: PageMap, w: World)
    requires 0 < p <= LIMIT64
  {
    && Owned(w.objects, w.duties) && Counted(w.undone, w.duties, w.made)
    && Recoverable(p, initial, HandlesOf(w.objects, w.duties), w.pages)
  }

  // ----- undoing in another order

  lemma UndoneKeepsKeys(p: nat, pages: PageMap, h: Handle)
    requires 0 < p <= LIMIT64
    ensures Undone(p, pages, h).Keys == pages.Keys
  {
  }

  lemma MappedAfterUndo(p: nat, pages: PageMap, h: Handle, first: nat, count: nat)
    requires 0 < p <= LIMIT64
    ensures Mapped(Undone(p, pages, h), first, count) <==> Mapped(pages, first, count)
  {
    UndoneKeepsKeys(p, pages, h);
    assert forall q :: q in Undone(p, pages, h) <==> q in pages;
  }

  lemma PageAfterUndo(p: nat, pages: PageMap, h: Handle, q: nat)
    requires 0 < p <= LIMIT64 && q in pages
    ensures q in Undone(p, pages, h)
    ensures Undone(p, pages, h)[q] ==
              if Touches(p, h, q) && Mapped(pages, FirstPage(p, h.address), PageCount(p, h.size)) then
                h.oldProtection
              else
                pages[q]
  {
  }

  lemma DisjointUndosCommute(p: nat, pages: PageMap, h: Handle, g: Handle)
    requires 0 < p <= LIMIT64 && Disjoint(p, h, g)
    ensures Undone(p, Undone(p, pages, h), g) == Undone(p, Undone(p, pages, g), h)
  {
    var one, other := Undone(p, pages, h), Undone(p, pages, g);
    UndoneKeepsKeys(p, pages, h);
    UndoneKeepsKeys(p, pages, g);
    UndoneKeepsKeys(p, one, g);
    UndoneKeepsKeys(p, other, h);
    MappedAfterUndo(p, pages, h, FirstPage(p, g.address), PageCount(p, g.size));
    MappedAfterUndo(p, pages, g, FirstPage(p, h.address), PageCount(p, h.size));
    forall q | q in pages.Keys
      ensures q in Undone(p, one, g) && q in Undone(p, other, h)
      ensures Undone(p, one, g)[q] == Undone(p, other, h)[q]
    {
      PageAfterUndo(p, pages, h, q);
      PageAfterUndo(p, pages, g, q);
      PageAfterUndo(p, one, g, q);
      PageAfterUndo(p, other, h, q);
    }
  }

  /** A change may be undone early if no later change overlaps it. */
  lemma {:induction false} UndoEarly(p: nat, hs: seq<Handle>, k: nat, pages: PageMap)
    requires 0 < p <= LIMIT64 && k < |hs|
    requires forall j :: k < j < |hs| ==> Disjoint(p, hs[k], hs[j])
    ensures UndoAll(p, Without(hs, k), Undone(p, pages, hs[k])) == UndoAll(p, hs, pages)
    decreases |hs|
  {
    var n := |hs| - 1;
    if k == n {
      assert Without(hs, k) == hs[..n];
    } else {
      var last := hs[n];
      assert Without(hs, k)[..n - 1] == Without(hs[..n], k);
      assert Without(hs, k)[n - 1] == last;
      DisjointUndosCommute(p, pages, hs[k], last);
      UndoEarly(p, hs[..n], k, Undone(p, pages, last));
    }
  }

  // ----- every event keeps the invariant

  /** A protector has no other duty than the one found first. */
  lemma OnlyDuty(duties: seq<Duty>, id: nat)
    requires forall i, j :: 0 <= i < j < |duties| ==> duties[i].id != duties[j].id
    ensures forall j :: 0 <= j < |duties| && j != DutyIndex(duties, id) ==> duties[j].id != id
  {
  }

  lemma FoundDuty(duties: seq<Duty>, id: nat, k: nat)
    requires k < |duties| && duties[k].id == id
    ensures DutyIndex(duties, id) < |duties|
  {
  }

  lemma NextNumber(n: nat)
    ensures Numbers(n + 1) == Numbers(n) + [n]
  {
  }

  lemma ProtectThenUndo(p: nat, pages: PageMap, address: nat, size: nat, prot: nat, permitted: bool)
    requires Request(p, address, size)
    requires var o := Protect(pages, p, address, size, prot, permitted);
             o.isSet && Uniform(pages, FirstPage(p, address), PageCount(p, size), o.oldProtection)
    ensures var o := Protect(pages, p, address, size, prot, permitted);
            var h := Handle(address, size, o.oldProtection, true);
            o.pages.Keys == pages.Keys && Covers(p, o.pages, h) && Undone(p, o.pages, h) == pages
  {
  }

  lemma FailedProtect(pages: PageMap, p: nat, address: nat, size: nat, prot: nat, permitted: bool)
    requires Request(p, address, size) && !Protect(pages, p, address, size, prot, permitted).isSet
    ensures Protect(pages, p, address, size, prot, permitted).pages == pages
  {
  }

  lemma OwnedAfterConstruct(objects: Objects, duties: seq<Duty>, id: nat, h: Handle, change: nat)
    requires Owned(objects, duties) && id !in objects
    ensures var objects', duties' := objects[id := h], if h.isSet then duties + [Duty(id, change)] else duties;
            && Owned(objects', duties')
            && HandlesOf(objects', duties') == HandlesOf(objects, duties) + if h.isSet then [h] else []
  {
    var objects', duties' := objects[id := h], if h.isSet then duties + [Duty(id, change)] else duties;
    forall i | i in objects' && objects'[i].isSet
      ensures DutyIndex(duties', i) < |duties'|
    {
      if i == id {
        FoundDuty(duties', i, |duties|);
      } else {
        FoundDuty(duties', i, DutyIndex(duties, i));
      }
    }
  }

  lemma CoversSame(p: nat, pages: PageMap, pages': PageMap, hs: seq<Handle>)
    requires pages.Keys == pages'.Keys
    requires forall k :: 0 <= k < |hs| ==> Covers(p, pages, hs[k])
    ensures forall k :: 0 <= k < |hs| ==> Covers(p, pages', hs[k])
  {
  }

  lemma AppendRecoverable(p: nat, initial: PageMap, hs: seq<Handle>, pages: PageMap, h: Handle, pages': PageMap)
    requires 0 < p <= LIMIT64 && Recoverable(p, initial, hs, pages)
    requires pages'.Keys == pages.Keys && Covers(p, pages', h) && Undone(p, pages', h) == pages
    ensures Recoverable(p, initial, hs + [h], pages')
  {
  }

  lemma CountNew(w: World, id: nat, h: Handle, pages: PageMap)
    requires Counted(w.undone, w.duties, w.made) && h.isSet
    ensures var w' := Constructed(w, id, h, pages);
            Counted(w'.undone, w'.duties, w'.made)
  {
    assert ChangesOf(w.duties + [Duty(id, w.made)]) == ChangesOf(w.duties) + [w.made];
    NextNumber(w.made);
  }

  /** A change that can be undone adds a duty at the end. */
  lemma KeepsInvariantWhenSet(p: nat, initial: PageMap, w: World, id: nat, h: Handle, pages: PageMap)
    requires 0 < p <= LIMIT64 && Invariant(p, initial, w) && id !in w.objects && h.isSet
    requires pages.Keys == w.pages.Keys && Covers(p, pages, h) && Undone(p, pages, h) == w.pages
    ensures Invariant(p, initial, Constructed(w, id, h, pages))
  {
    OwnedAfterConstruct(w.objects, w.duties, id, h, w.made);
    AppendRecoverable(p, initial, HandlesOf(w.objects, w.duties), w.pages, h, pages);
    CountNew(w, id, h, pages);
    var w' := Constructed(w, id, h, pages);
    assert HandlesOf(w'.objects, w'.duties) == HandlesOf(w.objects, w.duties) + [h];
  }

  lemma KeepsInvariantWhenUnset(p: nat, initial: PageMap, w: World, id: nat, h: Handle)
    requires 0 < p <= LIMIT64 && Invariant(p, initial, w) && id !in w.objects && !h.isSet
    ensures Invariant(p, initial, Constructed(w, id, h, w.pages))
  {
    OwnedAfterConstruct(w.objects, w.duties, id, h, w.made);
    assert HandlesOf(w.objects, w.duties) + [] == HandlesOf(w.objects, w.duties);
  }

  lemma ConstructKeepsInvariant(p: nat, initial: PageMap, w: World, e: Event)
    requires e.Construct? && 0 < p <= LIMIT64 && Invariant(p, initial, w) && Allowed(p, w, e)
    ensures Invariant(p, initial, Step(p, w, e))
  {
    var o := Protect(w.pages, p, e.address, e.size, ToSystemProt(e.flags), e.permitted);
    var h := Handle(e.address, e.size, o.oldProtection, o.isSet);
    if o.isSet {
      ProtectThenUndo(p, w.pages, e.address, e.size, ToSystemProt(e.flags), e.permitted);
      KeepsInvariantWhenSet(p, initial, w, e.id, h, o.pages);
    } else {
      FailedProtect(w.pages, p, e.address, e.size, ToSystemProt(e.flags), e.permitted);
      KeepsInvariantWhenUnset(p, initial, w, e.id, h);
    }
  }

  /** Passing a duty on changes its owner and nothing else. */
  lemma PassedDuties(duties: seq<Duty>, from: nat, to: nat)
    requires forall i, j :: 0 <= i < j < |duties| ==> duties[i].id != duties[j].id
    ensures |Passed(duties, from, to)| == |duties|
    ensures forall j :: 0 <= j < |duties| ==>
              Passed(duties, from, to)[j] == if duties[j].id == from then Duty(to, duties[j].change) else duties[j]
  {
    OnlyDuty(duties, from);
  }

  lemma OwnedAfterMove(objects: Objects, duties: seq<Duty>, from: nat, to: nat)
    requires Owned(objects, duties) && from in objects && to !in objects
    ensures var objects', duties' := HandedOver(objects, from, to), Passed(duties, from, to);
            && Owned(objects', duties')
            && HandlesOf(objects', duties') == HandlesOf(objects, duties)
            && ChangesOf(duties') == ChangesOf(duties)
  {
    var objects', duties' := HandedOver(objects, from, to), Passed(duties, from, to);
    PassedDuties(duties, from, to);
    forall id | id in objects' && objects'[id].isSet
      ensures DutyIndex(duties', id) < |duties'|
    {
      FoundDuty(duties', id, DutyIndex(duties, if id == to then from else id));
    }
    assert ChangesOf(duties') == ChangesOf(duties);
  }

  lemma MoveKeepsInvariant(p: nat, initial: PageMap, w: World, from: nat, to: nat)
    requires 0 < p <= LIMIT64 && Invariant(p, initial, w)
    requires from in w.objects && to !in w.objects
    ensures Invariant(p, initial, Moved(w, from, to))
  {
    OwnedAfterMove(w.objects, w.duties, from, to);
  }

  /** Removing a duty leaves every other owner its duty. */
  lemma OthersKeepDuties(duties: seq<Duty>, k: nat, id: nat)
    requires k < |duties| && DutyIndex(duties, id) < |duties| && duties[k].id != id
    ensures DutyIndex(Without(duties, k), id) < |duties| - 1
  {
    var j := DutyIndex(duties, id);
    var moved := if j < k then j else j - 1;
    assert Without(duties, k)[moved] == duties[j];
    FoundDuty(Without(duties, k), id, moved);
  }

  lemma OwnedAfterDestroy(objects: Objects, duties: seq<Duty>, id: nat)
    requires Owned(objects, duties) && id in objects && objects[id].isSet
    ensures var k := DutyIndex(duties, id);
            && k < |duties| && Owned(objects - {id}, Without(duties, k))
            && HandlesOf(objects, duties)[k] == objects[id]
  {
    var k := DutyIndex(duties, id);
    OnlyDuty(duties, id);
    var duties' := Without(duties, k);
    forall i | i in objects - {id} && objects[i].isSet
      ensures DutyIndex(duties', i) < |duties'|
    {
      OthersKeepDuties(duties, k, i);
    }
  }

  lemma HandlesAfterDestroy(objects: Objects, duties: seq<Duty>, id: nat)
    requires Owned(objects, duties) && id in objects && objects[id].isSet
    requires DutyIndex(duties, id) < |duties|
    requires Owned(objects - {id}, Without(duties, DutyIndex(duties, id)))
    ensures var k := DutyIndex(duties, id);
            HandlesOf(objects - {id}, Without(duties, k)) == Without(HandlesOf(objects, duties), k)
  {
  }

  lemma UnsetAfterDestroy(objects: Objects, duties: seq<Duty>, id: nat)
    requires Owned(objects, duties) && id in objects && !objects[id].isSet
    ensures Owned(objects - {id}, duties) && HandlesOf(objects - {id}, duties) == HandlesOf(objects, duties)
  {
  }

  lemma ChangesWithout(duties: seq<Duty>, k: nat)
    requires k < |duties|
    ensures multiset(ChangesOf(duties)) == multiset(ChangesOf(Without(duties, k))) + multiset{duties[k].change}
  {
    var c := ChangesOf(duties);
    assert ChangesOf(Without(duties, k)) == c[..k] + c[k + 1..];
    assert c == c[..k] + [c[k]] + c[k + 1..];
  }

  lemma RemoveRecoverable(p: nat, initial: PageMap, hs: seq<Handle>, k: nat, pages: PageMap)
    requires 0 < p <= LIMIT64 && k < |hs| && Recoverable(p, initial, hs, pages)
    requires forall j :: k < j < |hs| ==> Disjoint(p, hs[k], hs[j])
    ensures Recoverable(p, initial, Without(hs, k), Undone(p, pages, hs[k]))
  {
    UndoneKeepsKeys(p, pages, hs[k]);
    CoversSame(p, pages, Undone(p, pages, hs[k]), hs);
    UndoEarly(p, hs, k, pages);
  }

  lemma CountDone(undone: seq<nat>, duties: seq<Duty>, k: nat, made: nat)
    requires k < |duties| && Counted(undone, duties, made)
    ensures Counted(undone + [duties[k].change], Without(duties, k), made)
  {
    ChangesWithout(duties, k);
  }

  lemma DestroyKeepsInvariant(p: nat, initial: PageMap, w: World, e: Event)
    requires e.Destroy? && 0 < p <= LIMIT64 && Invariant(p, initial, w) && Allowed(p, w, e)
    ensures Invariant(p, initial, Step(p, w, e))
  {
    var k := DutyIndex(w.duties, e.id);
    if !w.objects[e.id].isSet {
      UnsetAfterDestroy(w.objects, w.duties, e.id);
    } else {
      OwnedAfterDestroy(w.objects, w.duties, e.id);
      HandlesAfterDestroy(w.objects, w.duties, e.id);
      RemoveRecoverable(p, initial, HandlesOf(w.objects, w.duties), k, w.pages);
      CountDone(w.undone, w.duties, k, w.made);
    }
  }

  // ----- whole runs

  ghost predicate AllowedRun(p: nat, w: World, events: seq<Event>)
    requires 0 < p <= LIMIT64
    decreases |events|
  {
    events == [] || (Allowed(p, w, events[0]) && AllowedRun(p, Step(p, w, events[0]), events[1..]))
  }

  ghost predicate PossibleRun(p: nat, w: World, events: seq<Event>)
    requires 0 < p <= LIMIT64
    decreases |events|
  {
    events == [] || (Possible(p, w, events[0]) && PossibleRun(p, Step(p, w, events[0]), events[1..]))
  }

  lemma {:induction false} AllowedIsPossible(p: nat, w: World, events: seq<Event>)
    requires 0 < p <= LIMIT64 && AllowedRun(p, w, events)
    ensures PossibleRun(p, w, events)
    decreases |events|
  {
    if events != [] { AllowedIsPossible(p, Step(p, w, events[0]), events[1..]); }
  }

  ghost function Run(p: nat, w: World, events: seq<Event>): World
    requires 0 < p <= LIMIT64 && PossibleRun(p, w, events)
    decreases |events|
  {
    if events == [] then w else Run(p, Step(p, w, events[0]), events[1..])
  }

  lemma {:induction false} RunKeepsInvariant(p: nat, initial: PageMap, w: World, events: seq<Event>)
    requires 0 < p <= LIMIT64 && Invariant(p, initial, w) && AllowedRun(p, w, events)
    ensures PossibleRun(p, w, events) && Invariant(p, initial, Run(p, w, events))
    decreases |events|
  {
    AllowedIsPossible(p, w, events);
    if events != [] {
      match events[0] {
        case Construct(_, _, _, _, _) => ConstructKeepsInvariant(p, initial, w, events[0]);
        case Move(from, to) => MoveKeepsInvariant(p, initial, w, from, to);
        case Destroy(_, _) => DestroyKeepsInvariant(p, initial, w, events[0]);
      }
      RunKeepsInvariant(p, initial, Step(p, w, events[0]), events[1..]);
    }
  }

  lemma FirstDutyIsSet(w: World)
    requires Owned(w.objects, w.duties) && w.duties != []
    ensures w.duties[0].id in w.objects && w.objects[w.duties[0].id].isSet
  {
  }

  /** Before the first event. */
  function Start(pages: PageMap): World { World(pages, map[], [], 0, []) }

  /** After any run from the start in which no protector is left set, the pages are as they were, and
      every change that was made has been undone exactly once. */
  lemma FinishedRunRestoresPages(p: nat, initial: PageMap, events: seq<Event>)
    requires 0 < p <= LIMIT64 && AllowedRun(p, Start(initial), events)
    ensures PossibleRun(p, Start(initial), events)
    ensures var w := Run(p, Start(initial), events);
            (forall id :: id in w.objects ==> !w.objects[id].isSet) ==>
              w.pages == initial && multiset(w.undone) == multiset(Numbers(w.made))
  {
    RunKeepsInvariant(p, initial, Start(initial), events);
    var w := Run(p, Start(initial), events);
    if w.duties != [] { FirstDutyIsSet(w); }
  }
}
