/**
 * The kernel object namespace, walked by name.
 *
 * A listing accounts for every entry of its directory. Resolving a path tells a name that is absent
 * from one that was not among what could be read, and a stop is the answer whatever was found first.
 */
module Namespace {
  import opened Machine
  import opened Session
  import opened UpcaseFold
  import opened ObjectNames
  import opened ObjectPaths
  import opened ObjectDirectory

  /** What the object manager calls a directory's type. */
  const DIRECTORY: Text := [0x44, 0x69, 0x72, 0x65, 0x63, 0x74, 0x6f, 0x72, 0x79]

  datatype Listing = Listing(objects: seq<KernelObject>, unreadable: nat, malformed: nat, halted: bool)

  /** A kernel whose memory holds still, and the host that folds what its table does not. */
  datatype Kernel = Kernel(mem: Memory, layout: Layout, globals: Globals, host: u16 -> u16)

  // ----- Listings

  function ObjectsAmong(ds: seq<Description>): seq<KernelObject> {
    if ds == [] then []
    else ObjectsAmong(ds[..|ds| - 1]) + (if ds[|ds| - 1].Listed? then [ds[|ds| - 1].found] else [])
  }

  function CountOf(ds: seq<Description>, d: Description): nat {
    if ds == [] then 0 else CountOf(ds[..|ds| - 1], d) + (if ds[|ds| - 1] == d then 1 else 0)
  }

  predicate NoneFatal(ds: seq<Description>) {
    forall i :: 0 <= i < |ds| ==> !ds[i].Fatal?
  }

  function ListingOf(ds: seq<Description>, halted: bool): Listing {
    Listing(ObjectsAmong(ds), CountOf(ds, CannotBeRead), CountOf(ds, ContradictsItself), halted)
  }

  /** Every entry is listed, counted as unreadable, counted as malformed, or has no name. */
  lemma {:induction false} ListingAccounts(ds: seq<Description>)
    requires NoneFatal(ds)
    ensures |ObjectsAmong(ds)| + CountOf(ds, CannotBeRead) + CountOf(ds, ContradictsItself) + CountOf(ds, Nameless) == |ds|
  {
    if ds != [] {
      ListingAccounts(ds[..|ds| - 1]);
    }
  }

  lemma {:induction false} OnlyListedAreObjects(ds: seq<Description>, found: KernelObject)
    ensures found in ObjectsAmong(ds) <==> Listed(found) in ds
  {
    if ds != [] {
      var n := |ds| - 1;
      OnlyListedAreObjects(ds[..n], found);
      assert ds == ds[..n] + [ds[n]];
    }
  }

  ghost function Descriptions(k: Kernel, bodies: seq<u64>): (ds: seq<Description>)
    requires k.layout.Checked()
    ensures |ds| == |bodies|
  {
    seq(|bodies|, i requires 0 <= i < |bodies| => Describe(k.mem, k.layout, k.globals, bodies[i]))
  }

  /** The whole of a directory, described. */
  ghost predicate ListsAll(k: Kernel, directory: u64, chains: seq<seq<u64>>, listing: Listing)
    requires k.layout.Checked()
  {
    var ds := Descriptions(k, ObjectsIn(k.mem, k.layout, chains));
    IsDirectory(k.mem, k.layout, directory, chains) && NoneFatal(ds) && listing == ListingOf(ds, false)
  }

  ghost predicate FullyLists(k: Kernel, directory: u64, listing: Listing)
    requires k.layout.Checked()
  {
    exists chains :: ListsAll(k, directory, chains, listing)
  }

  lemma ListingIsUnique(k: Kernel, directory: u64, one: Listing, other: Listing)
    requires k.layout.Checked() && FullyLists(k, directory, one) && FullyLists(k, directory, other)
    ensures one == other
  {
    hide IsDirectory, Descriptions, ListingOf, NoneFatal;
    var a :| ListsAll(k, directory, a, one);
    var b :| ListsAll(k, directory, b, other);
    DirectoryIs(k.mem, k.layout, directory, a, b);
  }

  lemma DescriptionJoins(ds: seq<Description>, d: Description)
    ensures ObjectsAmong(ds + [d]) == ObjectsAmong(ds) + (if d.Listed? then [d.found] else [])
    ensures forall e: Description :: CountOf(ds + [d], e) == CountOf(ds, e) + (if d == e then 1 else 0)
    ensures NoneFatal(ds) && !d.Fatal? ==> NoneFatal(ds + [d])
  {
    assert (ds + [d])[..|ds|] == ds;
  }

  // ----- What was seen, on any memory

  /** What each look at an object found, as memory stood at that look. */
  ghost function Seen(answers: Answers, layout: Layout, globals: Globals, looks: seq<Event>): (ds: seq<Description>)
    requires layout.Checked() && AllLooks(looks)
    ensures |ds| == |looks|
  {
    seq(|looks|, i requires 0 <= i < |looks| => Describe(AsOf(answers, looks[i].tick), layout, globals, looks[i].body))
  }

  ghost predicate AllLooks(looks: seq<Event>) {
    forall i :: 0 <= i < |looks| ==> looks[i].Described?
  }

  /** The looks are at the first of these bodies, in order. */
  ghost predicate LooksAt(looks: seq<Event>, bodies: seq<u64>) {
    AllLooks(looks) && |looks| <= |bodies| && forall i :: 0 <= i < |looks| ==> looks[i].body == bodies[i]
  }

  /** A listing is what its looks saw: every entry of it accounted for, whatever memory was doing meanwhile. */
  ghost predicate ListsSeen(answers: Answers, layout: Layout, globals: Globals, looks: seq<Event>, listing: Listing)
    requires layout.Checked()
  {
    AllLooks(looks) && NoneFatal(Seen(answers, layout, globals, looks)) && listing == ListingOf(Seen(answers, layout, globals, looks), listing.halted)
  }

  /** On any memory, every look ends in an object, a count of the unreadable or the malformed, or no name. */
  lemma SeenListingAccounts(answers: Answers, layout: Layout, globals: Globals, looks: seq<Event>, listing: Listing)
    requires layout.Checked() && ListsSeen(answers, layout, globals, looks, listing)
    ensures |listing.objects| + listing.unreadable + listing.malformed + CountOf(Seen(answers, layout, globals, looks), Nameless) == |looks|
  {
    hide Seen;
    ListingAccounts(Seen(answers, layout, globals, looks));
  }

  lemma LookAdded(answers: Answers, layout: Layout, globals: Globals, looks: seq<Event>, bodies: seq<u64>, look: Event)
    requires layout.Checked() && LooksAt(looks, bodies) && |looks| < |bodies| && look.Described? && look.body == bodies[|looks|]
    ensures LooksAt(looks + [look], bodies)
    ensures Seen(answers, layout, globals, looks + [look]) ==
      Seen(answers, layout, globals, looks) + [Describe(AsOf(answers, look.tick), layout, globals, look.body)]
  {
    hide Describe;
  }

  lemma NoLooksYet(answers: Answers, layout: Layout, globals: Globals, bodies: seq<u64>)
    requires layout.Checked()
    ensures LooksAt([], bodies) && Seen(answers, layout, globals, []) == [] && NoneFatal([]) && forall halted :: ListingOf([], halted) == Listing([], 0, 0, halted)
  {
  }

  /** Over memory that holds still, the moment of a look does not matter. */
  lemma SeenIsDescribed(k: Kernel, answers: Answers, looks: seq<Event>, bodies: seq<u64>)
    requires k.layout.Checked() && Steady(answers, k.mem) && LooksAt(looks, bodies)
    ensures Seen(answers, k.layout, k.globals, looks) == Descriptions(k, bodies[..|looks|])
  {
    hide Describe;
    forall i | 0 <= i < |looks|
      ensures Describe(AsOf(answers, looks[i].tick), k.layout, k.globals, looks[i].body) == Describe(k.mem, k.layout, k.globals, bodies[i])
    {
      DescribeAlike(AsOf(answers, looks[i].tick), k.mem, k.layout, k.globals, bodies[i]);
    }
  }

  /** The bodies of a directory, where memory holds one. */
  ghost function BodiesIn(k: Kernel, directory: u64): seq<u64> {
    if exists chains :: IsDirectory(k.mem, k.layout, directory, chains) then
      var chains :| IsDirectory(k.mem, k.layout, directory, chains);
      ObjectsIn(k.mem, k.layout, chains)
    else []
  }

  lemma BodiesAre(k: Kernel, directory: u64, chains: seq<seq<u64>>)
    requires IsDirectory(k.mem, k.layout, directory, chains)
    ensures BodiesIn(k, directory) == ObjectsIn(k.mem, k.layout, chains)
  {
    hide IsDirectory, ObjectsIn;
    forall other | IsDirectory(k.mem, k.layout, directory, other) ensures other == chains {
      DirectoryIs(k.mem, k.layout, directory, other, chains);
    }
  }

  /** The looks it takes to list the directories of a trail. */
  ghost function TrailLooks(k: Kernel, trail: seq<Step>): nat {
    if trail == [] then 0 else TrailLooks(k, trail[..|trail| - 1]) + |BodiesIn(k, trail[|trail| - 1].directory)|
  }

  lemma TrailLooksAdd(k: Kernel, trail: seq<Step>, step: Step)
    ensures TrailLooks(k, trail + [step]) == TrailLooks(k, trail) + |BodiesIn(k, step.directory)|
    ensures TrailLooks(k, []) == 0
  {
    hide BodiesIn;
    assert (trail + [step])[..|trail|] == trail;
  }

  // ----- Resolving a path

  /** The name an object is filed under is exactly its own, and folds to the component. */
  ghost predicate Matches(k: Kernel, found: KernelObject, component: Text) {
    found.exactName && FoldedName(k, found.name) == FoldedName(k, component)
  }

  ghost function FoldedName(k: Kernel, name: Text): Text {
    SteadyName(k.mem, k.globals.upcase, k.layout.pointer, k.host, name)
  }

  ghost predicate FirstMatch(k: Kernel, objects: seq<KernelObject>, component: Text, at: nat) {
    at < |objects| && Matches(k, objects[at], component) && NoMatch(k, objects[..at], component)
  }

  ghost predicate NoMatch(k: Kernel, objects: seq<KernelObject>, component: Text) {
    forall i :: 0 <= i < |objects| ==> !Matches(k, objects[i], component)
  }

  /** One component resolved: the directory it was looked for in, all of it, and which entry it is. */
  datatype Step = Step(directory: u64, listing: Listing, at: nat) {
    function Found(): KernelObject
      requires at < |listing.objects|
    {
      listing.objects[at]
    }
  }

  ghost predicate StepHolds(k: Kernel, step: Step, component: Text)
    requires k.layout.Checked()
  {
    FullyLists(k, step.directory, step.listing) && FirstMatch(k, step.listing.objects, component, step.at)
  }

  /** The components resolved so far, each found in the one before it, which is typed a directory. */
  ghost predicate IsTrail(k: Kernel, root: u64, components: seq<Text>, trail: seq<Step>)
    requires k.layout.Checked()
  {
    && |trail| <= |components|
    && (forall i :: 0 <= i < |trail| ==> StepHolds(k, trail[i], components[i]))
    && (trail != [] ==> trail[0].directory == root)
    && (forall i {:trigger trail[i]} :: 0 < i < |trail| ==> Descends(trail[i - 1], trail[i].directory))
  }

  ghost predicate Descends(step: Step, directory: u64) {
    step.at < |step.listing.objects| && IsDirectoryType(step.Found().typeName) && step.Found().address == directory
  }

  predicate IsDirectoryType(typeName: Option<Text>) { typeName == Some(DIRECTORY) }

  /** The directory the next component is looked for in. */
  ghost function Reached(root: u64, trail: seq<Step>): u64
    requires trail != [] ==> trail[|trail| - 1].at < |trail[|trail| - 1].listing.objects|
  {
    if trail == [] then root else trail[|trail| - 1].Found().address
  }

  function RootOf(mem: Memory, layout: Layout, globals: Globals): Result<u64, ObjectError> {
    if globals.root.None? then Err(Unavailable) else PointerAt(mem, layout, globals.root.value)
  }

  /** What each answer to a lookup says of the target, over memory that holds still. */
  ghost predicate Accounts(k: Kernel, components: seq<Text>, r: Result<KernelObject, ObjectError>, trail: seq<Step>)
    requires k.layout.Checked()
  {
    var root := RootOf(k.mem, k.layout, k.globals);
    match r
    case Ok(found) =>
      && root.Ok? && IsTrail(k, root.value, components, trail) && |trail| == |components| > 0
      && trail[|trail| - 1].Found() == found
    case Err(NotFound(directory, component)) =>
      root.Ok? && Misses(k, root.value, components, trail, directory, component, 0, 0)
    case Err(NotFoundInPart(directory, component, unreadable, malformed)) =>
      unreadable + malformed > 0 && root.Ok? && Misses(k, root.value, components, trail, directory, component, unreadable, malformed)
    case Err(NotADirectory(component)) =>
      root.Ok? && EndsAtLeaf(k, root.value, components, trail, component) && trail[|trail| - 1].Found().typeName.Some?
    case Err(Untyped(component)) =>
      root.Ok? && EndsAtLeaf(k, root.value, components, trail, component) && trail[|trail| - 1].Found().typeName.None?
    case Err(_) => true
  }

  /** The components lead to this directory: the root, or an object resolved in full and typed one. */
  ghost predicate LeadsTo(k: Kernel, components: seq<Text>, directory: u64, trail: seq<Step>)
    requires k.layout.Checked()
  {
    var root := RootOf(k.mem, k.layout, k.globals);
    root.Ok? && IsTrail(k, root.value, components, trail) && |trail| == |components|
    && if trail == [] then directory == root.value else Descends(trail[|trail| - 1], directory)
  }

  /** The directory reached was listed in full, with these counts, and holds no match for the next name. */
  ghost predicate Misses(k: Kernel, root: u64, components: seq<Text>, trail: seq<Step>, directory: Text,
                         component: Text, unreadable: nat, malformed: nat)
    requires k.layout.Checked()
  {
    && IsTrail(k, root, components, trail) && |trail| < |components|
    && component == components[|trail|] && directory == Walked(components[..|trail|])
    && (trail != [] ==> IsDirectoryType(trail[|trail| - 1].Found().typeName))
    && exists listing ::
         && FullyLists(k, Reached(root, trail), listing) && NoMatch(k, listing.objects, component)
         && listing.unreadable == unreadable && listing.malformed == malformed
  }

  /** The last component found is not a directory, with more of the path to come. */
  ghost predicate EndsAtLeaf(k: Kernel, root: u64, components: seq<Text>, trail: seq<Step>, component: Text)
    requires k.layout.Checked()
  {
    && IsTrail(k, root, components, trail) && 0 < |trail| < |components| && component == components[|trail| - 1]
    && !IsDirectoryType(trail[|trail| - 1].Found().typeName)
  }

  lemma TrailGrows(k: Kernel, root: u64, components: seq<Text>, trail: seq<Step>, step: Step)
    requires k.layout.Checked() && IsTrail(k, root, components, trail) && |trail| < |components|
    requires trail != [] ==> Descends(trail[|trail| - 1], step.directory)
    requires trail == [] ==> step.directory == root
    requires StepHolds(k, step, components[|trail|])
    ensures IsTrail(k, root, components, trail + [step])
  {
    hide StepHolds, Descends;
    var longer := trail + [step];
    forall i | 0 <= i < |longer| ensures StepHolds(k, longer[i], components[i]) {
      if i < |trail| {
        assert longer[i] == trail[i];
      }
    }
    forall i {:trigger longer[i]} | 0 < i < |longer| ensures Descends(longer[i - 1], longer[i].directory) {
      if i < |trail| {
        assert longer[i] == trail[i] && longer[i - 1] == trail[i - 1];
      }
    }
  }

  lemma FirstIsFirst(k: Kernel, objects: seq<KernelObject>, component: Text, at: nat, other: nat)
    requires FirstMatch(k, objects, component, at) && other < |objects| && Matches(k, objects[other], component)
    ensures at <= other
  {
    hide Matches;
    assert forall i :: 0 <= i < at ==> objects[..at][i] == objects[i];
  }

  lemma StepIsUnique(k: Kernel, one: Step, other: Step, component: Text)
    requires k.layout.Checked() && StepHolds(k, one, component) && StepHolds(k, other, component)
    requires one.directory == other.directory
    ensures one == other
  {
    hide FullyLists, Matches;
    ListingIsUnique(k, one.directory, one.listing, other.listing);
    FirstIsFirst(k, one.listing.objects, component, one.at, other.at);
    FirstIsFirst(k, one.listing.objects, component, other.at, one.at);
  }

  lemma {:induction false} TrailsAgree(k: Kernel, root: u64, components: seq<Text>, one: seq<Step>, other: seq<Step>, i: nat)
    requires k.layout.Checked() && IsTrail(k, root, components, one) && IsTrail(k, root, components, other)
    requires i < |one| && i < |other|
    ensures one[i] == other[i]
  {
    hide FullyLists, FirstMatch;
    if i > 0 {
      TrailsAgree(k, root, components, one, other, i - 1);
    }
    assert StepHolds(k, one[i], components[i]) && StepHolds(k, other[i], components[i]);
    StepIsUnique(k, one[i], other[i], components[i]);
  }

  lemma TrailIsPrefix(k: Kernel, root: u64, components: seq<Text>, trail: seq<Step>, whole: seq<Step>)
    requires k.layout.Checked() && IsTrail(k, root, components, trail) && IsTrail(k, root, components, whole)
    requires |trail| <= |whole|
    ensures trail <= whole
  {
    hide StepHolds, Descends;
    forall i: nat | i < |trail| ensures trail[i] == whole[i] {
      TrailsAgree(k, root, components, trail, whole, i);
    }
  }

  /** The answers a lookup settles on, as against what reading can fail with or a caller can ask for. */
  predicate Settles(r: Result<KernelObject, ObjectError>) {
    r.Ok? || r.error.NotFound? || r.error.NotFoundInPart? || r.error.NotADirectory? || r.error.Untyped?
  }

  function MissError(reached: Text, component: Text, listing: Listing): ObjectError {
    if listing.unreadable == 0 && listing.malformed == 0 then NotFound(reached, component)
    else NotFoundInPart(reached, component, listing.unreadable, listing.malformed)
  }

  /** The answer memory holds for a path, and the steps that lead to it. */
  ghost predicate IsAnswer(k: Kernel, components: seq<Text>, answer: Result<KernelObject, ObjectError>, whole: seq<Step>)
    requires k.layout.Checked()
  {
    Settles(answer) && Accounts(k, components, answer, whole)
  }

  lemma HeldTrail(k: Kernel, root: u64, components: seq<Text>, answer: Result<KernelObject, ObjectError>, whole: seq<Step>)
    requires k.layout.Checked() && IsAnswer(k, components, answer, whole) && RootOf(k.mem, k.layout, k.globals) == Ok(root)
    ensures IsTrail(k, root, components, whole)
  {
    hide IsTrail, RootOf, FullyLists, NoMatch;
  }

  /** Where a lookup has got to, on its way to the answer memory holds: the next step of it, or the miss that ends it. */
  lemma AwaitedStep(k: Kernel, root: u64, components: seq<Text>, trail: seq<Step>, directory: u64,
                    answer: Result<KernelObject, ObjectError>, whole: seq<Step>)
    requires k.layout.Checked() && IsTrail(k, root, components, trail) && IsAnswer(k, components, answer, whole)
    requires RootOf(k.mem, k.layout, k.globals) == Ok(root) && |trail| < |components| && trail <= whole
    requires if trail == [] then directory == root else Descends(trail[|trail| - 1], directory)
    ensures |trail| < |whole| ==> whole[|trail|].directory == directory && StepHolds(k, whole[|trail|], components[|trail|])
    ensures |trail| == |whole| ==> exists listing :: IsMiss(k, directory, listing, Walked(components[..|trail|]), components[|trail|], answer)
  {
    hide FullyLists, FirstMatch, NoMatch, RootOf, Walked;
    HeldTrail(k, root, components, answer, whole);
    if |trail| < |whole| {
      assert StepHolds(k, whole[|trail|], components[|trail|]);
      if trail != [] {
        assert Descends(whole[|trail| - 1], whole[|trail|].directory);
      }
    } else {
      assert trail == whole;
      MissIsThere(k, root, components, trail, directory, answer);
    }
  }

  ghost predicate MissesIn(k: Kernel, directory: u64, listing: Listing, component: Text)
    requires k.layout.Checked()
  {
    FullyLists(k, directory, listing) && NoMatch(k, listing.objects, component)
  }

  ghost predicate IsMiss(k: Kernel, directory: u64, listing: Listing, reached: Text, component: Text, answer: Result<KernelObject, ObjectError>)
    requires k.layout.Checked()
  {
    MissesIn(k, directory, listing, component) && answer == Err(MissError(reached, component, listing))
  }

  lemma MissIsThere(k: Kernel, root: u64, components: seq<Text>, trail: seq<Step>, directory: u64, answer: Result<KernelObject, ObjectError>)
    requires k.layout.Checked() && IsAnswer(k, components, answer, trail) && RootOf(k.mem, k.layout, k.globals) == Ok(root)
    requires |trail| < |components| && if trail == [] then directory == root else Descends(trail[|trail| - 1], directory)
    ensures exists listing :: IsMiss(k, directory, listing, Walked(components[..|trail|]), components[|trail|], answer)
  {
    hide IsTrail, FullyLists, NoMatch, RootOf, Walked, IsDirectoryType;
    if answer.Err? && (answer.error.NotFound? || answer.error.NotFoundInPart?) {
      var unreadable := if answer.error.NotFound? then 0 else answer.error.unreadable;
      var malformed := if answer.error.NotFound? then 0 else answer.error.malformed;
      var listing :| FullyLists(k, Reached(root, trail), listing) && NoMatch(k, listing.objects, components[|trail|])
        && listing.unreadable == unreadable && listing.malformed == malformed;
      assert IsMiss(k, directory, listing, Walked(components[..|trail|]), components[|trail|], answer);
    }
  }

  /** Every component found, or one that ends the lookup early: the answer memory holds says the same. */
  lemma AwaitedEnd(k: Kernel, root: u64, components: seq<Text>, trail: seq<Step>, answer: Result<KernelObject, ObjectError>, whole: seq<Step>)
    requires k.layout.Checked() && IsAnswer(k, components, answer, whole) && RootOf(k.mem, k.layout, k.globals) == Ok(root)
    requires trail != [] && trail <= whole && trail[|trail| - 1].at < |trail[|trail| - 1].listing.objects|
    ensures |trail| <= |components|
    ensures |trail| == |components| ==> answer == Ok(trail[|trail| - 1].Found())
    ensures |trail| < |components| && !IsDirectoryType(trail[|trail| - 1].Found().typeName) ==>
      answer == Err(LeafError(trail[|trail| - 1].Found().typeName, components[|trail| - 1]))
  {
    hide FullyLists, FirstMatch, NoMatch, RootOf, Walked, IsDirectoryType, StepHolds;
    HeldTrail(k, root, components, answer, whole);
    if |trail| < |whole| {
      assert Descends(whole[|trail| - 1], whole[|trail|].directory);
    } else {
      assert trail == whole;
    }
  }

  function LeafError(typeName: Option<Text>, component: Text): ObjectError {
    if typeName.Some? then NotADirectory(component) else Untyped(component)
  }

  class Namespace {
    const target: Target
    const layout: Layout
    const globals: Globals
    const upcase: Upcase

    constructor (target: Target, layout: Layout, globals: Globals, host: u16 -> u16)
      requires layout.Checked()
      ensures Valid() && this.target == target && this.layout == layout && this.globals == globals && upcase.host == host
      ensures fresh(upcase)
    {
      this.target, this.layout, this.globals := target, layout, globals;
      upcase := new Upcase(target, globals.upcase, layout.pointer, host);
    }

    ghost predicate Valid()
      reads this, upcase
    {
      && layout.Checked() && upcase.Valid()
      && upcase.target == target && upcase.table == globals.upcase && upcase.pointer == layout.pointer
    }

    /** The kernel as it is when its memory holds still. */
    ghost function AsKernel(mem: Memory): Kernel { Kernel(mem, layout, globals, upcase.host) }

    method DescribeBody(body: u64) returns (d: Description)
      requires layout.Checked()
      modifies target
      ensures Obeys(old(target.trace), target.trace, false) && target.ticks == old(target.ticks) + 1
      ensures Looks(target.trace) == old(Looks(target.trace)) + [Described(old(target.ticks), body)]
      ensures d == Describe(AsOf(target.answers, old(target.ticks)), layout, globals, body)
      ensures d.Fatal? ==> IsReadError(d.error)
    {
      hide Describe;
      var now := target.Look(body);
      d := Describe(now, layout, globals, body);
    }

    /** The loop of `named_in`, over the entries found. `seen` is the looks it made, one for each entry it got to. */
    method NameAll(found: seq<u64>, halted: bool) returns (r: Result<Listing, ObjectError>, ghost seen: seq<Event>)
      requires layout.Checked()
      modifies target
      ensures Looks(target.trace) == old(Looks(target.trace)) + seen && LooksAt(seen, found)
      ensures target.ticks - old(target.ticks) == |seen|
      ensures halted ==> r == Ok(Listing([], 0, 0, true)) && seen == [] && target.trace == old(target.trace)
      ensures !halted ==> Obeys(old(target.trace), target.trace, r.Ok? && r.value.halted)
      ensures target.NeverHalts() && !halted && r.Ok? ==> !r.value.halted
      ensures r.Ok? ==> ListsSeen(target.answers, layout, globals, seen, r.value) && (!r.value.halted ==> |seen| == |found|)
      ensures r.Err? ==> seen != [] && Seen(target.answers, layout, globals, seen)[|seen| - 1] == Fatal(r.error) && IsReadError(r.error)
    {
      hide ObjectsAmong, CountOf, NoneFatal, Describe, Seen, Looks, Obeys, LooksAt;
      seen := [];
      var listing := Listing([], 0, 0, halted);
      NoLooksYet(target.answers, layout, globals, found);
      NoEvents(target.trace);
      var n := 0;
      while n < |found| && !listing.halted
        invariant 0 <= n <= |found| && |seen| == n && target.ticks - old(target.ticks) == n
        invariant Looks(target.trace) == old(Looks(target.trace)) + seen && LooksAt(seen, found)
        invariant if halted then seen == [] && target.trace == old(target.trace) && listing == Listing([], 0, 0, true)
                  else Obeys(old(target.trace), target.trace, listing.halted)
        invariant target.NeverHalts() && !halted ==> !listing.halted
        invariant ListsSeen(target.answers, layout, globals, seen, listing)
        decreases |found| - n, if listing.halted then 0 else 1
      {
        label polling:
        var stop := target.Stopped();
        ObeysThen(old(target.trace), old@polling(target.trace), target.trace, stop);
        if stop {
          listing := listing.(halted := true);
          break;
        }
        label describing:
        var d := DescribeBody(found[n]);
        ObeysThen(old(target.trace), old@describing(target.trace), target.trace, false);
        ghost var look := Described(old@describing(target.ticks), found[n]);
        LookAdded(target.answers, layout, globals, seen, found, look);
        DescriptionJoins(Seen(target.answers, layout, globals, seen), d);
        seen := seen + [look];
        match d {
          case Fatal(e) => return Err(e), seen;
          case CannotBeRead => listing := listing.(unreadable := listing.unreadable + 1);
          case ContradictsItself => listing := listing.(malformed := listing.malformed + 1);
          case Nameless =>
          case Listed(o) => listing := listing.(objects := listing.objects + [o]);
        }
        n := n + 1;
      }
      r := Ok(listing);
    }

    /**
     * `named_in`. On any memory, a listing is what its looks saw, and the looks are at the entries
     * found, in order. Over memory that holds still, a listing that was not stopped is the whole
     * directory, and one that was is the part of it that was reached.
     */
    method NamedIn(directory: u64, ghost mem: Memory)
      returns (r: Result<Listing, ObjectError>, ghost got: Progress, ghost bodies: seq<u64>, ghost seen: seq<Event>)
      requires layout.Checked()
      modifies target
      ensures Obeys(old(target.trace), target.trace, r.Ok? && r.value.halted)
      ensures target.NeverHalts() && r.Ok? ==> !r.value.halted
      ensures r.Err? ==> IsReadError(r.error)
      ensures r.Ok? ==> Looks(target.trace) == old(Looks(target.trace)) + seen && LooksAt(seen, bodies)
      ensures r.Ok? ==> ListsSeen(target.answers, layout, globals, seen, r.value) && (!r.value.halted ==> |seen| == |bodies|)
      ensures r.Ok? ==> target.ticks - old(target.ticks) == Cost(got) + |seen|
      ensures Steady(target.answers, mem) && r.Ok? ==> GotTo(mem, layout, directory, got, bodies)
      ensures Steady(target.answers, mem) && r.Ok? && !r.value.halted ==>
        FullyLists(AsKernel(mem), directory, r.value) && bodies == BodiesIn(AsKernel(mem), directory)
      ensures Steady(target.answers, mem) && r.Ok? && r.value.halted ==>
        |seen| <= |bodies| && r.value == ListingOf(Descriptions(AsKernel(mem), bodies[..|seen|]), true)
      ensures forall chains :: Steady(target.answers, mem) && IsDirectory(mem, layout, directory, chains) ==>
        bodies <= ObjectsIn(mem, layout, chains)
      ensures forall whole :: Steady(target.answers, mem) && target.NeverHalts() && FullyLists(AsKernel(mem), directory, whole) ==>
        r == Ok(whole)
    {
      hide Steady, IsDirectory, ObjectsIn, Descriptions, ObjectsAmong, CountOf, NoneFatal, FullyLists, Describe, Seen, Looks, GotTo, Cost, BodiesIn, LooksAt, ListingOf;
      bodies, seen := [], [];
      var entries;
      entries, got := EntriesOf(target, layout, directory, mem);
      ghost var k := AsKernel(mem);
      if entries.Err? {
        forall whole | Steady(target.answers, mem) && FullyLists(k, directory, whole) ensures false {
          ListedIsThere(k, directory, whole);
        }
        return Err(entries.error), got, bodies, seen;
      }
      bodies := entries.value.0;
      label naming:
      r, seen := NameAll(entries.value.0, entries.value.1);
      if !entries.value.1 {
        ObeysThen(old(target.trace), old@naming(target.trace), target.trace, r.Ok? && r.value.halted);
      }
      if Steady(target.answers, mem) {
        SeenIsDescribed(k, target.answers, seen, bodies);
        SeenInRange(seen, bodies);
        if r.Err? {
          forall whole | target.NeverHalts() && FullyLists(k, directory, whole) ensures false {
            FatalIsDescribed(k, bodies, |seen|, r.error);
            NoFatalAmong(k, directory, got.chains, whole, bodies, |seen| - 1);
          }
        } else if !r.value.halted {
          assert bodies[..|seen|] == bodies;
          ListedAll(k, directory, got.chains, r.value);
          BodiesAre(k, directory, got.chains);
          forall whole | FullyLists(k, directory, whole) ensures whole == r.value {
            ListingIsUnique(k, directory, whole, r.value);
          }
        }
      }
    }

    /** The first object of a listing whose name is its own and folds to the component. */
    method FindNamed(objects: seq<KernelObject>, component: Text, ghost mem: Memory) returns (at: Option<nat>)
      requires Valid()
      modifies upcase, target
      ensures Valid() && Obeys(old(target.trace), target.trace, false) && Looks(target.trace) == old(Looks(target.trace))
      ensures at.Some? ==> at.value < |objects|
      ensures Steady(target.answers, mem) ==>
        if at.Some? then FirstMatch(AsKernel(mem), objects, component, at.value) else NoMatch(AsKernel(mem), objects, component)
    {
      hide Steady, SteadyName, Sound, Looks;
      for i := 0 to |objects|
        invariant Valid() && Obeys(old(target.trace), target.trace, false) && Looks(target.trace) == old(Looks(target.trace))
        invariant Steady(target.answers, mem) ==> NoMatch(AsKernel(mem), objects[..i], component)
      {
        if objects[i].exactName {
          label folding:
          var same := upcase.SameName(objects[i].name, component, mem);
          ObeysThen(old(target.trace), old@folding(target.trace), target.trace, false);
          if same {
            return Some(i);
          }
        }
        assert objects[..i + 1] == objects[..i] + [objects[i]];
      }
      assert objects[..|objects|] == objects;
      at := None;
    }

    method ReadRoot(ghost mem: Memory) returns (r: Result<u64, ObjectError>)
      modifies target
      ensures Obeys(old(target.trace), target.trace, false) && Looks(target.trace) == old(Looks(target.trace))
      ensures Steady(target.answers, mem) ==> r == RootOf(mem, layout, globals)
      ensures r.Err? ==> IsReadError(r.error)
    {
      if globals.root.None? {
        return Err(Unavailable);
      }
      r := ReadPointer(target, layout, globals.root.value, mem);
    }

    /** One component of a path, looked for in a directory. `reached` is the path there. */
    method FindIn(directory: u64, component: Text, reached: Text, ghost mem: Memory)
      returns (r: Result<KernelObject, ObjectError>, ghost step: Step, ghost seen: seq<Event>)
      requires Valid()
      modifies upcase, target
      ensures Valid() && Obeys(old(target.trace), target.trace, r.Err? && r.error.Halted?)
      ensures target.NeverHalts() ==> !(r.Err? && r.error.Halted?)
      ensures r.Err? ==> !r.error.NotADirectory? && !r.error.Untyped? && !r.error.BadPath?
      ensures r.Ok? || r.error.NotFound? || r.error.NotFoundInPart? ==>
        && Looks(target.trace) == old(Looks(target.trace)) + seen && !step.listing.halted
        && ListsSeen(target.answers, layout, globals, seen, step.listing)
      ensures Steady(target.answers, mem) && r.Ok? ==> |seen| == |BodiesIn(AsKernel(mem), directory)|
      ensures r.Ok? ==> step.directory == directory && step.at < |step.listing.objects| && step.Found() == r.value
      ensures Steady(target.answers, mem) && r.Ok? ==> StepHolds(AsKernel(mem), step, component)
      ensures Steady(target.answers, mem) && r.Err? && (r.error.NotFound? || r.error.NotFoundInPart?) ==>
        FullyLists(AsKernel(mem), directory, step.listing) && NoMatch(AsKernel(mem), step.listing.objects, component)
      ensures r.Err? && r.error.NotFound? ==>
        r.error == NotFound(reached, component) && step.listing.unreadable == step.listing.malformed == 0
      ensures r.Err? && r.error.NotFoundInPart? ==>
        && r.error == NotFoundInPart(reached, component, step.listing.unreadable, step.listing.malformed)
        && step.listing.unreadable + step.listing.malformed > 0
      ensures forall whole: Step | Steady(target.answers, mem) && target.NeverHalts() && whole.directory == directory ::
        StepHolds(AsKernel(mem), whole, component) ==> r == Ok(whole.Found()) && step == whole
      ensures forall listing | Steady(target.answers, mem) && target.NeverHalts() && MissesIn(AsKernel(mem), directory, listing, component) ::
        r == Err(MissError(reached, component, listing))
    {
      hide Steady, FullyLists, Matches, NoMatch, Sound, ObjectsIn, IsDirectory, Looks, LooksAt, ListsSeen, GotTo, Cost, BodiesIn, ListingOf, Descriptions;
      step, seen := Step(directory, Listing([], 0, 0, false), 0), [];
      ghost var got, bodies;
      var listed;
      listed, got, bodies, seen := NamedIn(directory, mem);
      if listed.Err? {
        return Err(listed.error), step, seen;
      }
      var listing := listed.value;
      if listing.halted {
        return Err(Halted(component)), step, seen;
      }
      label finding:
      var at := FindNamed(listing.objects, component, mem);
      ObeysThen(old(target.trace), old@finding(target.trace), target.trace, false);
      step := Step(directory, listing, if at.Some? then at.value else 0);
      if at.None? {
        forall whole: Step | Steady(target.answers, mem) && target.NeverHalts() && whole.directory == directory
          ensures !StepHolds(AsKernel(mem), whole, component)
        {
          NoMatchNoStep(AsKernel(mem), whole, listing, component);
        }
        forall other | Steady(target.answers, mem) && target.NeverHalts() && MissesIn(AsKernel(mem), directory, other, component)
          ensures other == listing
        {
          ListingIsUnique(AsKernel(mem), directory, other, listing);
        }
        if listing.unreadable == 0 && listing.malformed == 0 {
          return Err(NotFound(reached, component)), step, seen;
        }
        return Err(NotFoundInPart(reached, component, listing.unreadable, listing.malformed)), step, seen;
      }
      r := Ok(listing.objects[at.value]);
      forall whole: Step | Steady(target.answers, mem) && target.NeverHalts() && whole.directory == directory
          && StepHolds(AsKernel(mem), whole, component)
        ensures whole == step
      {
        StepIsUnique(AsKernel(mem), whole, step, component);
      }
      forall other | Steady(target.answers, mem) && target.NeverHalts() ensures !MissesIn(AsKernel(mem), directory, other, component) {
        if MissesIn(AsKernel(mem), directory, other, component) {
          NoMatchNoStep(AsKernel(mem), step, other, component);
        }
      }
    }

    /** The loop of `object_at`. `hope` is the answer memory holds, where it holds still and no stop comes. */
    method ResolveFrom(root: u64, components: seq<Text>, ghost mem: Memory, ghost hope: Option<(Result<KernelObject, ObjectError>, seq<Step>)>)
      returns (r: Result<KernelObject, ObjectError>, ghost trail: seq<Step>, ghost last: (Listing, seq<Event>))
      requires Valid() && AreComponents(components)
      requires Steady(target.answers, mem) ==> RootOf(mem, layout, globals) == Ok(root)
      requires hope.Some? ==> Steady(target.answers, mem) && target.NeverHalts() && IsAnswer(AsKernel(mem), components, hope.value.0, hope.value.1)
      modifies upcase, target
      ensures Valid() && Obeys(old(target.trace), target.trace, r.Err? && r.error.Halted?)
      ensures r != Err(BadPath)
      ensures MissIsSeen(target.answers, layout, globals, target.trace, r, last)
      ensures Steady(target.answers, mem) ==> Accounts(AsKernel(mem), components, r, trail)
      ensures Steady(target.answers, mem) && r.Ok? ==> |Looks(target.trace)| == |old(Looks(target.trace))| + TrailLooks(AsKernel(mem), trail)
      ensures hope.Some? ==> r == hope.value.0
    {
      hide Steady, FullyLists, FirstMatch, NoMatch, Sound, IsTrail, IsAnswer, StepHolds, MissesIn, RootOf, Walked, AreComponents, IsDirectoryType, Accounts, MissError, Looks, ListsSeen, TrailLooks, BodiesIn;
      var directory, walked := root, [SEPARATOR];
      trail, last := [], (Listing([], 0, 0, false), []);
      ghost var k := AsKernel(mem);
      TrailStarts(k, root, components);
      TrailLooksAdd(k, [], Step(root, last.0, 0));
      var i := 0;
      while true
        invariant Valid() && Obeys(old(target.trace), target.trace, false)
        invariant 0 <= i == |trail| < |components| && walked == Walked(components[..i])
        invariant Steady(target.answers, mem) ==> IsTrail(k, root, components, trail)
        invariant Steady(target.answers, mem) ==> if i == 0 then directory == root else Descends(trail[i - 1], directory)
        invariant Steady(target.answers, mem) ==> |Looks(target.trace)| == |old(Looks(target.trace))| + TrailLooks(k, trail)
        invariant hope.Some? ==> trail <= hope.value.1
        decreases |components| - i
      {
        if hope.Some? {
          AwaitedStep(k, root, components, trail, directory, hope.value.0, hope.value.1);
        }
        label looking:
        ghost var step, seen;
        var found;
        found, step, seen := FindIn(directory, components[i], walked, mem);
        ObeysThen(old(target.trace), old@looking(target.trace), target.trace, found.Err? && found.error.Halted?);
        if found.Err? {
          if Steady(target.answers, mem) {
            LookupFailed(k, root, components, trail, directory, found.error, step.listing);
          }
          return Err(found.error), trail, (step.listing, seen);
        }
        if Steady(target.answers, mem) {
          TrailGrows(k, root, components, trail, step);
          TrailLooksAdd(k, trail, step);
        }
        trail := trail + [step];
        if hope.Some? {
          AwaitedEnd(k, root, components, trail, hope.value.0, hope.value.1);
        }
        if i == |components| - 1 {
          if Steady(target.answers, mem) {
            LookupEnded(k, root, components, trail, Ok(found.value));
          }
          return Ok(found.value), trail, last;
        }
        if !IsDirectoryType(found.value.typeName) {
          var e := LeafError(found.value.typeName, components[i]);
          if Steady(target.answers, mem) {
            LookupEnded(k, root, components, trail, Err(e));
          }
          return Err(e), trail, last;
        }
        directory := found.value.address;
        WalkedOn(components, i);
        walked := (if |walked| > 1 then walked + [SEPARATOR] else walked) + components[i];
        i := i + 1;
      }
    }

    /**
     * `object_at`. Over memory that holds still, every answer is one `Accounts` allows, and the
     * answer memory holds is the one given, absence included. On any memory, a stop is the whole
     * answer, and an absence is one its last looks account for.
     */
    method ObjectAt(path: Text, ghost mem: Memory)
      returns (r: Result<KernelObject, ObjectError>, ghost trail: seq<Step>, ghost last: (Listing, seq<Event>))
      requires Valid()
      modifies upcase, target
      ensures Valid() && Obeys(old(target.trace), target.trace, r.Err? && r.error.Halted?)
      ensures ComponentsOf(path).Err? || ComponentsOf(path).value == [] ==> r == Err(BadPath) && target.trace == old(target.trace)
      ensures ComponentsOf(path).Ok? && ComponentsOf(path).value != [] ==> r != Err(BadPath)
      ensures MissIsSeen(target.answers, layout, globals, target.trace, r, last)
      ensures Steady(target.answers, mem) && r.Ok? ==> |Looks(target.trace)| == |old(Looks(target.trace))| + TrailLooks(AsKernel(mem), trail)
      ensures Steady(target.answers, mem) && ComponentsOf(path).Ok? && Settles(r) ==> Accounts(AsKernel(mem), ComponentsOf(path).value, r, trail)
      ensures forall answer, whole | Steady(target.answers, mem) && target.NeverHalts() && ComponentsOf(path).Ok? && RootIsThere(AsKernel(mem)) ::
        IsAnswer(AsKernel(mem), ComponentsOf(path).value, answer, whole) ==> r == answer
    {
      hide Steady, Sound, RootOf, ComponentsOf, Accounts, IsAnswer, Looks, ListsSeen, TrailLooks;
      trail, last := [], (Listing([], 0, 0, false), []);
      var components := ComponentsOf(path);
      if components.Err? {
        BadPathOnly(path);
        return Err(components.error), trail, last;
      }
      if components.value == [] {
        NothingHeld(AsKernel(mem));
        return Err(BadPath), trail, last;
      }
      PathsAreExact(path, components.value);
      var root := ReadRoot(mem);
      if root.Err? {
        return Err(root.error), trail, last;
      }
      if root.value == 0 {
        return Err(Malformed), trail, last;
      }
      ghost var hope: Option<(Result<KernelObject, ObjectError>, seq<Step>)> := None;
      if answer, whole :| Steady(target.answers, mem) && target.NeverHalts() && IsAnswer(AsKernel(mem), components.value, answer, whole) {
        hope := Some((answer, whole));
        forall other, trail | IsAnswer(AsKernel(mem), components.value, other, trail) ensures other == answer {
          OneAnswer(AsKernel(mem), components.value, other, trail, answer, whole);
        }
      }
      label resolving:
      r, trail, last := ResolveFrom(root.value, components.value, mem, hope);
      ObeysThen(old(target.trace), old@resolving(target.trace), target.trace, r.Err? && r.error.Halted?);
    }

    /**
     * `objects_in`: the listing a path names, once it is known to name a directory. What it answers
     * is the whole of that directory, the part of it reached before a stop, or why there is neither.
     */
    method ListPath(path: Text, ghost mem: Memory)
      returns (r: Result<Listing, ObjectError>, ghost directory: u64, ghost trail: seq<Step>,
               ghost got: Progress, ghost bodies: seq<u64>, ghost seen: seq<Event>)
      requires Valid()
      modifies upcase, target
      ensures Valid()
      ensures Obeys(old(target.trace), target.trace, (r.Ok? && r.value.halted) || (r.Err? && r.error.Halted?))
      ensures ComponentsOf(path).Err? ==> r == Err(BadPath) && target.trace == old(target.trace)
      ensures Steady(target.answers, mem) && r.Ok? && !r.value.halted ==> FullyLists(AsKernel(mem), directory, r.value)
      ensures r.Ok? ==> LooksAt(seen, bodies) && ListsSeen(target.answers, layout, globals, seen, r.value) && (!r.value.halted ==> |seen| == |bodies|)
      ensures Steady(target.answers, mem) && r.Ok? ==> GotTo(mem, layout, directory, got, bodies)
      ensures Steady(target.answers, mem) && r.Ok? ==>
        |Looks(target.trace)| == |old(Looks(target.trace))| + TrailLooks(AsKernel(mem), trail) + |seen|
      ensures Steady(target.answers, mem) && r.Ok? && r.value.halted ==>
        |seen| <= |bodies| && r.value == ListingOf(Descriptions(AsKernel(mem), bodies[..|seen|]), true)
      ensures forall chains :: Steady(target.answers, mem) && r.Ok? && IsDirectory(mem, layout, directory, chains) ==>
        bodies <= ObjectsIn(mem, layout, chains)
      ensures Steady(target.answers, mem) && r.Ok? ==> ComponentsOf(path).Ok? && LeadsTo(AsKernel(mem), ComponentsOf(path).value, directory, trail)
      ensures Steady(target.answers, mem) && ComponentsOf(path).Ok? && r.Err? && Settles(Err(r.error)) ==>
        AccountsForNoListing(AsKernel(mem), ComponentsOf(path).value, r.error, trail)
      ensures forall there, way, whole | Steady(target.answers, mem) && target.NeverHalts() && ComponentsOf(path).Ok? && RootIsThere(AsKernel(mem)) ::
        Lists(AsKernel(mem), ComponentsOf(path).value, there, way, whole) ==> r == Ok(whole)
    {
      hide Steady, Sound, ComponentsOf, Accounts, IsAnswer, IsDirectoryType, FullyLists, ObjectsIn, IsDirectory, PointerAt, RootIsThere, Descriptions, ListingOf, LeadsTo,
        Looks, LooksAt, ListsSeen, GotTo, Cost, BodiesIn, TrailLooks;
      directory, trail, got, bodies, seen := 0, [], Progress([], false, []), [], [];
      var components := ComponentsOf(path);
      if components.Err? {
        BadPathOnly(path);
        return Err(components.error), directory, trail, got, bodies, seen;
      }
      ghost var k := AsKernel(mem);
      var at: u64 := 0;
      if components.value == [] {
        var root := ReadRoot(mem);
        if root.Err? {
          NoRootNoListing(k);
          return Err(root.error), directory, trail, got, bodies, seen;
        }
        at := root.value;
        if Steady(target.answers, mem) {
          RootLeads(k, at);
          TrailLooksAdd(k, [], Step(at, Listing([], 0, 0, false), 0));
        }
      } else {
        ghost var last;
        var found;
        found, trail, last := ObjectAt(path, mem);
        forall there, way | Steady(target.answers, mem) && target.NeverHalts() && RootIsThere(k) && LeadsTo(k, components.value, there, way)
          ensures found.Ok? && IsDirectoryType(found.value.typeName) && found.value.address == there
        {
          LeadsIsHeld(k, components.value, there, way);
        }
        if found.Err? {
          return Err(found.error), directory, trail, got, bodies, seen;
        }
        if !IsDirectoryType(found.value.typeName) {
          return Err(LeafError(found.value.typeName, found.value.name)), directory, trail, got, bodies, seen;
        }
        at := found.value.address;
        if Steady(target.answers, mem) {
          LeadsThere(k, components.value, trail, found.value);
        }
      }
      directory := at;
      label listing:
      r, got, bodies, seen := NamedIn(at, mem);
      ObeysThen(old(target.trace), old@listing(target.trace), target.trace, r.Ok? && r.value.halted);
    }
  }

  /** The pointer to the root directory reads, and is not null. */
  ghost predicate RootIsThere(k: Kernel) {
    var root := RootOf(k.mem, k.layout, k.globals);
    root.Ok? && root.value != 0
  }

  /** The path leads to this directory, and this is the whole of it. */
  ghost predicate Lists(k: Kernel, components: seq<Text>, directory: u64, trail: seq<Step>, whole: Listing)
    requires k.layout.Checked()
  {
    LeadsTo(k, components, directory, trail) && FullyLists(k, directory, whole)
  }

  /** Why a path has no listing: the lookup says so, or what it found is not a directory. */
  ghost predicate AccountsForNoListing(k: Kernel, components: seq<Text>, e: ObjectError, trail: seq<Step>)
    requires k.layout.Checked()
  {
    || Accounts(k, components, Err(e), trail)
    || exists found ::
         && Accounts(k, components, Ok(found), trail) && !IsDirectoryType(found.typeName)
         && e == LeafError(found.typeName, found.name)
  }

  lemma NothingHeld(k: Kernel)
    requires k.layout.Checked()
    ensures forall answer, whole :: !IsAnswer(k, [], answer, whole)
  {
    hide FullyLists, NoMatch, StepHolds, RootOf;
  }

  lemma NoRootNoListing(k: Kernel)
    requires k.layout.Checked()
    ensures RootOf(k.mem, k.layout, k.globals).Err? ==> !RootIsThere(k)
  {
  }

  lemma RootLeads(k: Kernel, root: u64)
    requires k.layout.Checked() && RootOf(k.mem, k.layout, k.globals) == Ok(root)
    ensures LeadsTo(k, [], root, []) && forall there, way :: LeadsTo(k, [], there, way) ==> there == root
  {
    hide FullyLists, NoMatch, StepHolds, RootOf;
  }

  /** A directory a path leads to is the answer memory holds for the path. */
  lemma LeadsIsHeld(k: Kernel, components: seq<Text>, directory: u64, trail: seq<Step>)
    requires k.layout.Checked() && LeadsTo(k, components, directory, trail) && components != []
    ensures trail != [] && Descends(trail[|trail| - 1], directory) && IsAnswer(k, components, Ok(trail[|trail| - 1].Found()), trail)
  {
    hide FullyLists, NoMatch, StepHolds, RootOf;
  }

  /** Memory holds one answer for a path. */
  lemma OneAnswer(k: Kernel, components: seq<Text>, one: Result<KernelObject, ObjectError>, way: seq<Step>,
                  other: Result<KernelObject, ObjectError>, whole: seq<Step>)
    requires k.layout.Checked() && IsAnswer(k, components, one, way) && IsAnswer(k, components, other, whole)
    ensures one == other
  {
    hide IsTrail, RootOf, IsAnswer;
    HeldHasRoot(k, components, one, way);
    if |way| <= |whole| {
      ShorterIsTheSame(k, components, one, way, other, whole);
    } else {
      ShorterIsTheSame(k, components, other, whole, one, way);
    }
  }

  lemma HeldHasRoot(k: Kernel, components: seq<Text>, answer: Result<KernelObject, ObjectError>, whole: seq<Step>)
    requires k.layout.Checked() && IsAnswer(k, components, answer, whole)
    ensures RootOf(k.mem, k.layout, k.globals).Ok?
  {
    hide IsTrail, RootOf, FullyLists, NoMatch;
  }

  lemma ShorterIsTheSame(k: Kernel, components: seq<Text>, one: Result<KernelObject, ObjectError>, way: seq<Step>,
                         other: Result<KernelObject, ObjectError>, whole: seq<Step>)
    requires k.layout.Checked() && IsAnswer(k, components, one, way) && IsAnswer(k, components, other, whole) && |way| <= |whole|
    requires RootOf(k.mem, k.layout, k.globals).Ok?
    ensures one == other
  {
    hide IsTrail, RootOf, FullyLists, FirstMatch, NoMatch, Walked, IsDirectoryType, IsAnswer, StepHolds, MissesIn, MissError, Accounts;
    var root := RootOf(k.mem, k.layout, k.globals).value;
    HeldTrail(k, root, components, one, way);
    HeldTrail(k, root, components, other, whole);
    TrailIsPrefix(k, root, components, way, whole);
    HeldShape(k, root, components, one, way);
    if way != [] && (|way| == |components| || !IsDirectoryType(way[|way| - 1].Found().typeName)) {
      AwaitedEnd(k, root, components, way, one, way);
      AwaitedEnd(k, root, components, way, other, whole);
    } else {
      var directory := Reached(root, way);
      AwaitedStep(k, root, components, way, directory, one, way);
      AwaitedStep(k, root, components, way, directory, other, whole);
      var listing :| IsMiss(k, directory, listing, Walked(components[..|way|]), components[|way|], one);
      if |way| < |whole| {
        MissNoStep(k, whole[|way|], listing, components[|way|]);
      } else {
        var same :| IsMiss(k, directory, same, Walked(components[..|way|]), components[|way|], other);
        OneMiss(k, directory, listing, same, components[|way|]);
      }
    }
  }

  lemma HeldShape(k: Kernel, root: u64, components: seq<Text>, answer: Result<KernelObject, ObjectError>, whole: seq<Step>)
    requires k.layout.Checked() && IsAnswer(k, components, answer, whole) && RootOf(k.mem, k.layout, k.globals) == Ok(root)
    ensures |whole| <= |components| && (whole == [] ==> components != [])
    ensures whole != [] ==> whole[|whole| - 1].at < |whole[|whole| - 1].listing.objects|
  {
    hide RootOf, FullyLists, NoMatch, Matches;
    HeldTrail(k, root, components, answer, whole);
    if whole != [] {
      assert StepHolds(k, whole[|whole| - 1], components[|whole| - 1]);
    }
  }

  lemma MissNoStep(k: Kernel, step: Step, listing: Listing, component: Text)
    requires k.layout.Checked() && MissesIn(k, step.directory, listing, component)
    ensures !StepHolds(k, step, component)
  {
    hide FullyLists, NoMatch;
    NoMatchNoStep(k, step, listing, component);
  }

  lemma OneMiss(k: Kernel, directory: u64, one: Listing, other: Listing, component: Text)
    requires k.layout.Checked() && MissesIn(k, directory, one, component) && MissesIn(k, directory, other, component)
    ensures one == other
  {
    hide FullyLists, NoMatch;
    ListingIsUnique(k, directory, one, other);
  }

  lemma LeadsThere(k: Kernel, components: seq<Text>, trail: seq<Step>, found: KernelObject)
    requires k.layout.Checked() && Accounts(k, components, Ok(found), trail) && IsDirectoryType(found.typeName)
    ensures LeadsTo(k, components, found.address, trail)
  {
    hide FullyLists, Matches, NoMatch, RootOf;
    assert StepHolds(k, trail[|trail| - 1], components[|trail| - 1]);
  }

  lemma BadPathOnly(path: Text)
    ensures ComponentsOf(path).Err? ==> ComponentsOf(path).error == BadPath
  {
  }

  lemma TrailStarts(k: Kernel, root: u64, components: seq<Text>)
    requires k.layout.Checked()
    ensures IsTrail(k, root, components, []) && Walked(components[..0]) == [SEPARATOR]
    ensures AreComponents(components) ==> components != []
  {
  }

  lemma WalkedOn(components: seq<Text>, i: nat)
    requires AreComponents(components) && i < |components|
    ensures
      var walked := Walked(components[..i]);
      Walked(components[..i + 1]) == (if |walked| > 1 then walked + [SEPARATOR] else walked) + components[i]
  {
    hide Join, Split, Walked;
    if i > 0 {
      JoinEnds(components[..i]);
    }
    WalkedGrows(components[..i], components[i]);
    assert components[..i + 1] == components[..i] + [components[i]];
  }

  /** A lookup that fails part-way, in terms of the directory it failed in. */
  lemma LookupFailed(k: Kernel, root: u64, components: seq<Text>, trail: seq<Step>, directory: u64, e: ObjectError, listing: Listing)
    requires k.layout.Checked() && RootOf(k.mem, k.layout, k.globals) == Ok(root)
    requires IsTrail(k, root, components, trail) && |trail| < |components|
    requires if trail == [] then directory == root else Descends(trail[|trail| - 1], directory)
    requires !e.NotADirectory? && !e.Untyped?
    requires e.NotFound? || e.NotFoundInPart? ==>
      FullyLists(k, directory, listing) && NoMatch(k, listing.objects, components[|trail|])
    requires e.NotFound? ==>
      e == NotFound(Walked(components[..|trail|]), components[|trail|]) && listing.unreadable == listing.malformed == 0
    requires e.NotFoundInPart? ==>
      && e == NotFoundInPart(Walked(components[..|trail|]), components[|trail|], listing.unreadable, listing.malformed)
      && listing.unreadable + listing.malformed > 0
    ensures Accounts(k, components, Err(e), trail)
  {
    hide IsTrail, FullyLists, NoMatch, Walked, RootOf, IsDirectoryType;
  }

  lemma LookupEnded(k: Kernel, root: u64, components: seq<Text>, trail: seq<Step>, r: Result<KernelObject, ObjectError>)
    requires k.layout.Checked() && RootOf(k.mem, k.layout, k.globals) == Ok(root)
    requires IsTrail(k, root, components, trail) && trail != [] && trail[|trail| - 1].at < |trail[|trail| - 1].listing.objects|
    requires match r
      case Ok(found) => |trail| == |components| && found == trail[|trail| - 1].Found()
      case Err(e) =>
        var typeName := trail[|trail| - 1].Found().typeName;
        && |trail| < |components| && !IsDirectoryType(typeName)
        && e == LeafError(typeName, components[|trail| - 1])
    ensures Accounts(k, components, r, trail)
  {
    hide IsTrail, RootOf, IsDirectoryType;
  }

  lemma NoMatchNoStep(k: Kernel, step: Step, listing: Listing, component: Text)
    requires k.layout.Checked() && FullyLists(k, step.directory, listing) && NoMatch(k, listing.objects, component)
    ensures !StepHolds(k, step, component)
  {
    hide FullyLists, Matches;
    if StepHolds(k, step, component) {
      ListingIsUnique(k, step.directory, step.listing, listing);
    }
  }

  lemma NoEvents(trace: seq<Event>)
    ensures Obeys(trace, trace, false)
  {
  }

  lemma SeenInRange(seen: seq<Event>, bodies: seq<u64>)
    requires LooksAt(seen, bodies)
    ensures |seen| <= |bodies|
  {
  }

  lemma FatalIsDescribed(k: Kernel, bodies: seq<u64>, n: nat, e: ObjectError)
    requires k.layout.Checked() && 0 < n <= |bodies| && Descriptions(k, bodies[..n])[n - 1] == Fatal(e)
    ensures Describe(k.mem, k.layout, k.globals, bodies[n - 1]).Fatal?
  {
  }

  /** An absence, on any memory: the last directory's looks accounted for everything in it, with the counts the answer gives. */
  ghost predicate MissIsSeen(answers: Answers, layout: Layout, globals: Globals, trace: seq<Event>,
                             r: Result<KernelObject, ObjectError>, last: (Listing, seq<Event>))
    requires layout.Checked()
  {
    r.Err? && (r.error.NotFound? || r.error.NotFoundInPart?) ==>
      && |last.1| <= |Looks(trace)| && Looks(trace)[|Looks(trace)| - |last.1|..] == last.1
      && ListsSeen(answers, layout, globals, last.1, last.0) && !last.0.halted
      && (r.error.NotFound? ==> last.0.unreadable == last.0.malformed == 0)
      && (r.error.NotFoundInPart? ==>
            last.0.unreadable == r.error.unreadable && last.0.malformed == r.error.malformed && last.0.unreadable + last.0.malformed > 0)
  }

  lemma ListedIsThere(k: Kernel, directory: u64, whole: Listing)
    requires k.layout.Checked() && FullyLists(k, directory, whole)
    ensures exists chains :: IsDirectory(k.mem, k.layout, directory, chains)
  {
    hide IsDirectory;
  }

  lemma ListedAll(k: Kernel, directory: u64, chains: seq<seq<u64>>, listing: Listing)
    requires k.layout.Checked() && IsDirectory(k.mem, k.layout, directory, chains)
    requires NoneFatal(Descriptions(k, ObjectsIn(k.mem, k.layout, chains)))
    requires listing == ListingOf(Descriptions(k, ObjectsIn(k.mem, k.layout, chains)), false)
    ensures FullyLists(k, directory, listing)
  {
    hide IsDirectory, Descriptions, NoneFatal, ListingOf;
    assert ListsAll(k, directory, chains, listing);
  }

  /** A directory that can be listed whole has no entry that ends the listing. */
  lemma NoFatalAmong(k: Kernel, directory: u64, chains: seq<seq<u64>>, whole: Listing, bodies: seq<u64>, n: nat)
    requires k.layout.Checked() && FullyLists(k, directory, whole) && IsDirectory(k.mem, k.layout, directory, chains)
    requires bodies == ObjectsIn(k.mem, k.layout, chains) && n < |bodies|
    ensures !Describe(k.mem, k.layout, k.globals, bodies[n]).Fatal?
  {
    hide IsDirectory, Describe;
    var other :| ListsAll(k, directory, other, whole);
    DirectoryIs(k.mem, k.layout, directory, other, chains);
    assert !Descriptions(k, bodies)[n].Fatal?;
  }
}
