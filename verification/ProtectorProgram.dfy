/** A program that holds protectors, and the proof that what it does to the pages is a run. */
module ProtectorProgram {
  import opened Words
  import opened MemoryProtector
  import opened ProtectorRuns

  function HandleOf(o: Protector): Handle
    reads o
  {
    Handle(o.address, o.size, o.oldProtection, o.isSet)
  }

  /** Before every creation in the run, the lines the constructor reads describe the pages at that moment. */
  ghost predicate Observed(p: nat, w: World, events: seq<Event>, lines: seq<seq<string>>)
    requires 0 < p <= LIMIT64 && PossibleRun(p, w, events)
    decreases |events|
  {
    && |lines| == |events|
    && (events != [] ==>
          && (events[0].Construct? ==> Describes(lines[0], w.pages, p))
          && Observed(p, Step(p, w, events[0]), events[1..], lines[1..]))
  }

  class Program {
    const space: AddressSpace
    var objects: map<nat, Protector>
    ghost var world: World

    /** The pages and the fields of the objects are those of the world. */
    ghost predicate Valid()
      reads this, space, objects.Values
    {
      && 0 < space.pageSize <= LIMIT64 && PageSize(space.pageSize)
      && space.pages == world.pages
      && objects.Keys == world.objects.Keys
      && (forall id :: id in objects ==>
            HandleOf(objects[id]) == world.objects[id]
            && Request(space.pageSize, objects[id].address, objects[id].size))
      && (forall id, id' :: id in objects && id' in objects && id != id' ==> objects[id] != objects[id'])
    }

    constructor (space: AddressSpace)
      requires 0 < space.pageSize <= LIMIT64 && PageSize(space.pageSize)
      ensures Valid() && this.space == space && world == Start(space.pages) && objects == map[]
    {
      this.space := space;
      this.objects := map[];
      this.world := Start(space.pages);
    }

    method Construct(id: nat, address: nat, size: nat, flags: nat, permitted: bool, lines: seq<string>)
      requires Valid() && id !in objects && Request(space.pageSize, address, size) && space.DescribedBy(lines)
      modifies this, space`pages
      ensures Valid() && fresh(objects.Values - old(objects.Values))
      ensures world == Step(space.pageSize, old(world), Event.Construct(id, address, size, flags, permitted))
    {
      var o := new Protector(space, lines, address, size, flags, permitted);
      objects := objects[id := o];
      world := Step(space.pageSize, world, Event.Construct(id, address, size, flags, permitted));
    }

    method Move(from: nat, to: nat)
      requires Valid() && from in objects && to !in objects
      modifies this, objects.Values
      ensures Valid() && fresh(objects.Values - old(objects.Values))
      ensures world == Step(space.pageSize, old(world), Event.Move(from, to))
    {
      var o := new Protector.Move(objects[from]);
      objects := objects[to := o];
      world := Step(space.pageSize, world, Event.Move(from, to));
    }

    method Destroy(id: nat, permitted: bool)
      requires Valid() && id in objects
      modifies this, space`pages
      ensures Valid() && fresh(objects.Values - old(objects.Values))
      ensures world == Step(space.pageSize, old(world), Event.Destroy(id, permitted))
    {
      objects[id].Destroy(space, permitted);
      objects := objects - {id};
      world := Step(space.pageSize, world, Event.Destroy(id, permitted));
    }

    /** Real objects go through any possible run, and end in its world. */
    method Replay(events: seq<Event>, lines: seq<seq<string>>)
      requires Valid() && PossibleRun(space.pageSize, world, events)
      requires Observed(space.pageSize, world, events, lines)
      modifies this, space`pages, objects.Values
      ensures Valid() && world == Run(space.pageSize, old(world), events)
      decreases |events|
    {
      if events == [] {
        return;
      }
      match events[0] {
        case Construct(id, address, size, flags, permitted) =>
          Construct(id, address, size, flags, permitted, lines[0]);
        case Move(from, to) =>
          Move(from, to);
        case Destroy(id, permitted) =>
          Destroy(id, permitted);
      }
      Replay(events[1..], lines[1..]);
    }
  }

  /** After a disciplined run of a program whose protectors are all gone or unset, the pages are as before. */
  method RunProgram(space: AddressSpace, events: seq<Event>, lines: seq<seq<string>>) returns (program: Program)
    requires 0 < space.pageSize <= LIMIT64 && PageSize(space.pageSize)
    requires PossibleRun(space.pageSize, Start(space.pages), events)
    requires Observed(space.pageSize, Start(space.pages), events, lines)
    modifies space`pages
    ensures program.Valid() && program.world == Run(space.pageSize, Start(old(space.pages)), events)
    ensures AllowedRun(space.pageSize, Start(old(space.pages)), events)
            && (forall id :: id in program.objects ==> !program.objects[id].isSet) ==>
              space.pages == old(space.pages)
  {
    ghost var initial := space.pages;
    program := new Program(space);
    program.Replay(events, lines);
    if AllowedRun(space.pageSize, Start(initial), events) {
      FinishedRunRestoresPages(space.pageSize, initial, events);
      assert forall id :: id in program.world.objects ==> program.world.objects[id] == HandleOf(program.objects[id]);
    }
  }
}
