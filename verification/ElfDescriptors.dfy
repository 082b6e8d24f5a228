/**
 The life of ELF descriptors: opening files and archive members, counting activations, and
 releasing descriptors when the last activation and the last open member are gone.
 */
module ElfDescriptors {
  import opened Options
  import ElfArchive

  datatype Kind = KindNone | KindElf | KindAr
  datatype Cmd = CmdNull | CmdRead | CmdWrite | CmdRdWr

  class Elf {
    var activations: nat
    var nchildren: nat
    const kind: Kind
    const fd: int
    const cmd: Cmd
    const parent: Elf?
    // The mapping the raw bytes lie in, and whether this descriptor has to unmap it.
    const mapping: Option<nat>
    const mmapped: bool
    // Distance from, and identity of, the descriptor opened from a file.
    ghost const depth: nat
    ghost const root: Elf

    constructor (kind: Kind, fd: int, cmd: Cmd, parent: Elf?, mapping: Option<nat>, mmapped: bool)
      ensures this.kind == kind && this.fd == fd && this.cmd == cmd && this.parent == parent
      ensures this.mapping == mapping && this.mmapped == mmapped
      ensures activations == 1 && nchildren == 0
      ensures depth == if parent == null then 0 else parent.depth + 1
      ensures root == if parent == null then this else parent.root
    {
      this.kind, this.fd, this.cmd, this.parent := kind, fd, cmd, parent;
      this.mapping, this.mmapped := mapping, mmapped;
      activations, nchildren := 1, 0;
      depth := if parent == null then 0 else parent.depth + 1;
      if parent == null {
        root := this;
      } else {
        root := parent.root;
      }
    }
  }

  // The open members of an archive.
  ghost function Children(live: set<Elf>, e: Elf): set<Elf> {
    set c | c in live && c.parent == e
  }

  // Parents are live archives whose mapping is shared by their members.
  ghost predicate Forest(live: set<Elf>) {
    (forall e :: e in live && e.parent != null ==>
      e.parent in live && e.parent.kind == KindAr && e.mapping == e.parent.mapping && !e.mmapped) &&
    (forall e :: e in live && e.parent != null ==> e.depth == e.parent.depth + 1 && e.root == e.parent.root) &&
    (forall e :: e in live && e.parent == null ==> e.depth == 0 && e.root == e)
  }

  // What a descriptor maps is still mapped, and shared only within one file.
  ghost predicate Mapped(live: set<Elf>, mapped: set<nat>) {
    (forall e :: e in live && e.mmapped ==> e.mapping.Some?) &&
    (forall e :: e in live && e.mapping.Some? ==> e.mapping.value in mapped) &&
    (forall e, f :: e in live && f in live && e.mapping.Some? && e.mapping == f.mapping ==> e.root == f.root)
  }

  // What is mapped belongs to a live descriptor that has to unmap it.
  ghost predicate NoneLeft(live: set<Elf>, mapped: set<nat>) {
    forall m <- mapped :: exists e :: e in live && e.mmapped && e.mapping == Some(m)
  }

  lemma NoneLeftAdd(live: set<Elf>, mapped: set<nat>, n: Elf)
    requires NoneLeft(live, mapped)
    ensures NoneLeft(live + {n}, if n.mmapped && n.mapping.Some? then mapped + {n.mapping.value} else mapped)
  {
    forall m <- mapped
      ensures exists e :: e in live + {n} && e.mmapped && e.mapping == Some(m)
    {
      var e :| e in live && e.mmapped && e.mapping == Some(m);
      assert e in live + {n};
    }
  }

  lemma NoneLeftRemove(live: set<Elf>, mapped: set<nat>, sv: Elf)
    requires NoneLeft(live, mapped) && (sv.mmapped ==> sv.mapping.Some?)
    ensures NoneLeft(live - {sv}, if sv.mmapped then mapped - {sv.mapping.value} else mapped)
  {
    forall m | m in mapped && !(sv.mmapped && sv.mapping == Some(m))
      ensures exists e :: e in live - {sv} && e.mmapped && e.mapping == Some(m)
    {
      var e :| e in live && e.mmapped && e.mapping == Some(m);
      assert e in live - {sv};
    }
  }

  ghost predicate Counted(live: set<Elf>)
    reads live`nchildren
  {
    forall e :: e in live && e.kind == KindAr ==> e.nchildren == |Children(live, e)|
  }

  ghost predicate InUse(e: Elf)
    reads e
  {
    e.activations > 0 || (e.kind == KindAr && e.nchildren > 0)
  }

  // A live descriptor whose root is e, other than e, has an ancestor that is a child of e.
  lemma {:induction false} RootHasChild(live: set<Elf>, e: Elf, f: Elf)
    requires Forest(live) && e in live && f in live && f.root == e && f != e
    ensures Children(live, e) != {}
    decreases f.depth
  {
    if f.parent == e {
      assert f in Children(live, e);
    } else {
      RootHasChild(live, e, f.parent);
    }
  }

  // A descriptor that is not in use has no open members.
  lemma NoChildren(live: set<Elf>, e: Elf)
    requires Forest(live) && Counted(live) && e in live && !InUse(e)
    ensures Children(live, e) == {}
  {
    assert e.kind == KindAr ==> |Children(live, e)| == 0;
  }

  // Nobody else uses the mapping of a file descriptor without open members.
  lemma MappingUnshared(live: set<Elf>, mapped: set<nat>, e: Elf)
    requires Forest(live) && Mapped(live, mapped) && e in live && Children(live, e) == {}
    requires e.parent == null && e.mapping.Some?
    ensures forall f :: f in live && f != e ==> f.mapping != e.mapping
  {
    forall f | f in live && f != e
      ensures f.mapping != e.mapping
    {
      if f.mapping == e.mapping {
        RootHasChild(live, e, f);
      }
    }
  }

  lemma ForestRemove(live: set<Elf>, sv: Elf)
    requires Forest(live) && sv in live && Children(live, sv) == {}
    ensures Forest(live - {sv})
  {
    assert forall e :: e in live && e.parent == sv ==> e in Children(live, sv);
  }

  lemma ChildrenRemove(live: set<Elf>, sv: Elf, e: Elf)
    requires sv in live
    ensures |Children(live - {sv}, e)| == |Children(live, e)| - if sv.parent == e then 1 else 0
  {
    assert Children(live - {sv}, e) == Children(live, e) - {sv};
    assert sv in Children(live, e) <==> sv.parent == e;
  }

  lemma ChildrenAdd(live: set<Elf>, n: Elf, e: Elf)
    requires n !in live
    ensures |Children(live + {n}, e)| == |Children(live, e)| + if n.parent == e then 1 else 0
  {
    assert Children(live + {n}, e) == Children(live, e) + if n.parent == e then {n} else {};
    assert n !in Children(live, e);
  }

  lemma MappedAt(live: set<Elf>, mapped: set<nat>, e: Elf)
    requires Mapped(live, mapped) && e in live
    ensures e.mapping.Some? ==> e.mapping.value in mapped
  {
  }

  lemma NoneBelowNew(live: set<Elf>, n: Elf)
    requires Forest(live) && n !in live
    ensures Children(live, n) == {}
  {
  }

  // A new descriptor joins the forest, at the top or below a live archive.
  lemma ForestAdd(live: set<Elf>, mapped: set<nat>, n: Elf)
    requires Forest(live) && Mapped(live, mapped) && n !in live
    requires n.depth == if n.parent == null then 0 else n.parent.depth + 1
    requires n.root == if n.parent == null then n else n.parent.root
    requires n.parent != null ==> n.parent in live && n.parent.kind == KindAr && n.mapping == n.parent.mapping && !n.mmapped
    requires n.parent == null && n.mapping.Some? ==> n.mapping.value !in mapped
    requires n.mmapped ==> n.mapping.Some?
    ensures Forest(live + {n})
    ensures Mapped(live + {n}, if n.mapping.Some? then mapped + {n.mapping.value} else mapped)
  {
  }

  // ----- Looking at bytes -----

  const EI_NIDENT := 16
  const ELFMAG := "\U{7f}ELF"
  const ARMAG := "!<arch>\n"

  // What becomes of the bytes of a file or member: nothing is allocated, a descriptor is
  // allocated and released again, it is allocated and forgotten, or it is of some kind.
  datatype Look = Empty | Refused | Forgotten | Recognised(kind: Kind)

  function LookAt(image: string): Look
    requires !Aborts(image)
  {
    if image == [] then Empty
    else if |image| > EI_NIDENT && image[..4] == ELFMAG then
      var cls, order, version := image[4] as int, image[5] as int, image[6] as int;
      if version > 1 || order !in {1, 2} || cls !in {1, 2} then Refused else Recognised(KindElf)
    else if StartsArchive(image) then
      if Front(image).outcome.Opened? then Recognised(KindAr) else Forgotten
    else Recognised(KindNone)
  }

  predicate StartsArchive(image: string) {
    |image| >= |ARMAG| && image[..|ARMAG|] == ARMAG
  }

  function Front(image: string): ElfArchive.Front {
    ElfArchive.SearchFront(image, ElfArchive.SARMAG, 0, None, None)
  }

  // A special member of size 0 violates an assertion.
  predicate Aborts(image: string) {
    StartsArchive(image) && Front(image).outcome.Aborted?
  }

  // An archive whose first members cannot be read.
  predicate BadArchive(image: string) {
    StartsArchive(image) && Front(image).outcome.Failed?
  }

  // A descriptor is forgotten exactly for such archives.
  lemma ForgottenIff(image: string)
    requires !Aborts(image)
    ensures LookAt(image).Forgotten? <==> BadArchive(image)
  {
    if StartsArchive(image) {
      assert image[..4] == ARMAG[..4];
      assert ARMAG[0] != ELFMAG[0];
    }
  }

  // Of the well-formed archives, those without members and those with a single special one.
  lemma ArchiveForgottenIff(image: string, ms: seq<ElfArchive.Member>)
    requires StartsArchive(image) && ElfArchive.IsArchive(image, ms) && forall m :: m in ms ==> |m.name| == 16
    ensures !Aborts(image)
    ensures LookAt(image).Forgotten? <==> ms == [] || (|ms| == 1 && ms[0].name[0] == '/')
  {
    hide ElfArchive.IsArchive, ElfArchive.SearchFront;
    ElfArchive.OpenFindsFirst(image, ms);
    ForgottenIff(image);
    assert |ms| == 1 ==> ms[0] in ms;
  }

  // The shortest of them.
  lemma EmptyArchiveForgotten()
    ensures !Aborts(ARMAG) && LookAt(ARMAG) == Forgotten
  {
    assert |ARMAG| == 8 && ARMAG[..8] == ARMAG;
    assert ElfArchive.Offset([], 0) == 8;
    ArchiveForgottenIff(ARMAG, []);
  }

  class Library {
    var versionSet: bool
    var nextMapping: nat
    // What is mapped, which descriptors are in use, and which have been released.
    ghost var mapped: set<nat>
    ghost var live: set<Elf>
    ghost var released: set<Elf>
    // Descriptors that were allocated and that nothing refers to any more.
    ghost var lost: set<Elf>

    ghost predicate Consistent()
      reads this, live`nchildren
    {
      Forest(live) && Mapped(live, mapped) && NoneLeft(live, mapped) && Counted(live) &&
      live !! released && live !! lost && released !! lost && forall m :: m in mapped ==> m < nextMapping
    }

    ghost predicate Valid()
      reads this, live
    {
      Consistent() && forall e :: e in live ==> InUse(e)
    }

    constructor ()
      ensures Valid() && live == {} && released == {} && lost == {} && !versionSet
    {
      versionSet, nextMapping := false, 0;
      mapped, live, released, lost := {}, {}, {}, {};
    }

    // Drops one activation; the last one releases the descriptor and every archive above it
    // that was only waiting for its members.
    method End(e0: Elf?) returns (n: nat)
      requires Valid() && (e0 != null ==> e0 in live)
      modifies this`live, this`released, this`mapped, live`activations, live`nchildren
      ensures Valid() && live <= old(live) && released == old(released) + (old(live) - live)
      ensures forall e :: e in live ==> e.activations == old(e.activations) - if e == e0 && old(e0.activations) > 0 then 1 else 0
      ensures forall e :: e in old(live) - live ==> old(e.activations) == if e == e0 then 1 else 0
      ensures n == if e0 != null && old(e0.activations) > 0 then old(e0.activations) - 1 else 0
      ensures e0 != null && old(e0.activations) == 1 ==>
                (e0 in live <==> e0.kind == KindAr && old(e0.nchildren) > 0)
      ensures e0 != null && e0.parent == null ==> old(live) - {e0} <= live
    {
      hide Consistent;
      n := 0;
      if e0 == null || e0.activations == 0 {
        return;
      }
      e0.activations := e0.activations - 1;
      if e0.activations > 0 {
        return e0.activations;
      }
      Climb(e0);
    }

    // Releases a descriptor without activations and then its ancestors, as far as they can go.
    method Climb(e0: Elf)
      requires Consistent() && e0 in live && e0.activations == 0
      requires forall f :: f in live && f != e0 ==> InUse(f)
      modifies this`live, this`released, this`mapped, live`nchildren
      ensures Valid() && live <= old(live) && released == old(released) + (old(live) - live)
      ensures forall f :: f in old(live) - live ==> f.activations == 0
      ensures e0 in live <==> e0.kind == KindAr && old(e0.nchildren) > 0
      ensures e0.parent == null ==> old(live) - {e0} <= live
    {
      hide Consistent;
      var e: Elf? := e0;
      while e != null && e.activations == 0
        invariant Consistent() && (e != null ==> e in live)
        invariant forall f :: f in live && f != e ==> InUse(f)
        invariant live <= old(live) && released == old(released) + (old(live) - live)
        invariant forall f :: f in old(live) && f !in live ==> f.activations == 0
        invariant e == e0 ==> live == old(live) && e0.nchildren == old(e0.nchildren)
        invariant e != e0 ==> e0 !in live && !(e0.kind == KindAr && old(e0.nchildren) > 0)
        invariant e0.parent == null ==> (forall f :: f in old(live) && f != e0 ==> f in live) && (e == e0 || e == null)
        decreases if e == null then 0 else e.depth + 1
      {
        if e.kind == KindAr && e.nchildren > 0 {
          return;
        }
        e := ReleaseOne(e);
      }
    }

    // Unmaps and frees one descriptor and moves on to its parent.
    method ReleaseOne(sv: Elf) returns (p: Elf?)
      requires Consistent() && sv in live && !InUse(sv)
      requires forall f :: f in live && f != sv ==> InUse(f)
      modifies this`live, this`released, this`mapped, live`nchildren
      ensures Consistent() && p == sv.parent && (p != null ==> p in live && p.depth < sv.depth)
      ensures forall f :: f in live && f != p ==> InUse(f)
      ensures live == old(live) - {sv} && released == old(released) + {sv}
      ensures mapped == if sv.mmapped then old(mapped) - {sv.mapping.value} else old(mapped)
    {
      NoChildren(live, sv);
      ForestRemove(live, sv);
      NoneLeftRemove(live, mapped, sv);
      p := sv.parent;
      if sv.mmapped {
        MappingUnshared(live, mapped, sv);
        mapped := mapped - {sv.mapping.value};
      }
      ghost var before := live;
      if p != null {
        assert sv in Children(live, p);
        p.nchildren := p.nchildren - 1;
      }
      live := live - {sv};
      released := released + {sv};
      forall e | e in live && e.kind == KindAr
        ensures e.nchildren == |Children(live, e)|
      {
        ChildrenRemove(before, sv, e);
      }
    }

    // Adds a fresh descriptor with one activation.
    method Allocate(kind: Kind, fd: int, c: Cmd, parent: Elf?, mapping: Option<nat>, mmapped: bool) returns (e: Elf)
      requires Consistent()
      requires if parent == null then mmapped == mapping.Some? else !mmapped
      requires parent == null && mapping.Some? ==> mapping.value !in mapped && mapping.value < nextMapping
      requires parent != null ==> parent in live && parent.kind == KindAr && mapping == parent.mapping && !mmapped
      modifies this`live, this`mapped, live`nchildren
      ensures Consistent() && fresh(e) && live == old(live) + {e} && e.activations == 1 && e.nchildren == 0
      ensures e.kind == kind && e.parent == parent && e.fd == fd && e.cmd == c
      ensures forall f :: f in old(live) ==> f.nchildren == old(f.nchildren) + if f == parent then 1 else 0
    {
      hide Forest, Mapped, Children, NoneLeft;
      e := new Elf(kind, fd, c, parent, mapping, mmapped);
      ForestAdd(live, mapped, e);
      NoneLeftAdd(live, mapped, e);
      NoneBelowNew(live, e);
      if parent != null {
        MappedAt(live, mapped, parent);
        assert mapping.Some? ==> mapped + {mapping.value} == mapped;
      }
      ghost var before := live;
      if parent != null {
        parent.nchildren := parent.nchildren + 1;
      }
      live := live + {e};
      mapped := if mapping.Some? then mapped + {mapping.value} else mapped;
      forall f | f in live && f.kind == KindAr
        ensures f.nchildren == |Children(live, f)|
      {
        ChildrenAdd(before, e, f);
      }
    }

    // Allocates a descriptor for bytes in memory; for an archive that does not open it is
    // forgotten.
    method Memory(image: string, memory: bool, fd: int, c: Cmd, parent: Elf?, mapping: Option<nat>, mmapped: bool) returns (e: Elf?)
      requires Consistent() && !Aborts(image)
      requires if parent == null then mmapped == mapping.Some? else !mmapped
      requires parent == null && mapping.Some? ==> mapping.value !in mapped && mapping.value < nextMapping
      requires parent != null ==> parent in live && parent.kind == KindAr && mapping == parent.mapping && !mmapped
      modifies this`live, this`mapped, this`released, this`lost, live`nchildren
      ensures Consistent() && (e != null <==> memory && LookAt(image).Recognised?)
      ensures e != null ==> fresh(e) && live == old(live) + {e} && lost == old(lost) && released == old(released)
      ensures e != null ==> e.activations == 1 && e.nchildren == 0
      ensures e != null ==> e.kind == LookAt(image).kind && e.parent == parent && e.fd == fd && e.cmd == c
      ensures e == null ==> live == old(live) && mapped == old(mapped) && old(released) <= released
      ensures |lost| == |old(lost)| + if memory && BadArchive(image) then 1 else 0
      ensures old(lost) <= lost && forall f :: f in old(live) ==> f.nchildren == old(f.nchildren) + if e != null && f == parent then 1 else 0
    {
      hide Forest, Mapped, NoneLeft, Counted, Front;
      ForgottenIff(image);
      e := null;
      if image == [] || !memory {
        return;
      }
      match LookAt(image) {
        case Recognised(kind) =>
          e := Allocate(kind, fd, c, parent, mapping, mmapped);
        case Refused =>
          var dropped := new Elf(KindElf, -1, CmdRead, null, None, false);
          released := released + {dropped};
        case Forgotten =>
          var dropped := new Elf(KindAr, -1, CmdRead, null, None, false);
          lost := lost + {dropped};
        case Empty =>
      }
    }

    // Maps a file and looks at it; archives cannot be opened for update.
    method OpenObject(fd: int, c: Cmd, io: bool, memory: bool, image: string) returns (e: Elf?)
      requires Valid() && !Aborts(image)
      modifies this, live`activations, live`nchildren
      ensures Valid() && versionSet == old(versionSet)
      ensures e != null <==> io && memory && LookAt(image).Recognised? && !(c.CmdRdWr? && LookAt(image).kind == KindAr)
      ensures e != null ==> fresh(e) && e.activations == 1 && e.kind == LookAt(image).kind && e.parent == null && live == old(live) + {e}
      ensures e != null ==> e.fd == fd && e.cmd == c
      ensures e == null ==> live == old(live)
      ensures old(lost) <= lost && |lost| == |old(lost)| + if io && memory && BadArchive(image) then 1 else 0
      ensures forall f :: f in old(live) ==> f.activations == old(f.activations)
    {
      hide Forest, Mapped, NoneLeft, Counted, LookAt, Aborts, BadArchive;
      if !io {
        return null;
      }
      var m := nextMapping;
      nextMapping := nextMapping + 1;
      e := Memory(image, memory, fd, c, null, Some(m), true);
      if e != null && c.CmdRdWr? && e.kind == KindAr {
        var _ := End(e);
        e := null;
      }
    }

    // Opens the member an archive's cursor is at, given its bytes, if there is one.
    method OpenMember(fd: int, c: Cmd, a: Elf, memory: bool, member: Option<string>) returns (e: Elf?)
      requires Valid() && a in live && a.kind == KindAr && (member.Some? ==> !Aborts(member.value))
      modifies this`live, this`mapped, this`released, this`lost, live`nchildren
      ensures Valid() && (e != null <==> memory && member.Some? && LookAt(member.value).Recognised?)
      ensures e != null ==> fresh(e) && e.activations == 1 && e.parent == a && live == old(live) + {e}
      ensures e != null ==> e.kind == LookAt(member.value).kind && e.fd == fd && e.cmd == c
      ensures e == null ==> live == old(live)
      ensures old(lost) <= lost && |lost| == |old(lost)| + if memory && member.Some? && BadArchive(member.value) then 1 else 0
      ensures forall f :: f in old(live) ==> f.nchildren == old(f.nchildren) + if e != null && f == a then 1 else 0
    {
      hide Forest, Mapped, NoneLeft, Counted, LookAt, Aborts, BadArchive;
      if member.None? {
        return null;
      }
      e := Memory(member.value, memory, fd, c, a, a.mapping, false);
    }

    // Whether a call looks at bytes: it reads, and opens a file or an archive member.
    ghost predicate Reads(fd: int, c: Cmd, a: Elf?, io: bool, memory: bool, image: Option<string>)
      reads this`versionSet
    {
      versionSet && memory && image.Some? &&
      if a == null then (c.CmdRead? || c.CmdRdWr?) && io
      else c.CmdRead? && a.fd == fd && a.cmd == c && a.kind == KindAr
    }

    // When a call yields a descriptor.
    ghost predicate Opens(fd: int, c: Cmd, a: Elf?, io: bool, memory: bool, image: Option<string>)
      requires (a == null ==> image.Some?) && (image.Some? ==> !Aborts(image.value))
      reads this`versionSet
    {
      versionSet &&
      match c
      case CmdNull => false
      case CmdWrite => a == null && io && memory
      case CmdRdWr => a == null && io && memory && LookAt(image.value).Recognised? && LookAt(image.value).kind != KindAr
      case CmdRead =>
        if a == null then io && memory && LookAt(image.value).Recognised?
        else a.fd == fd && a.cmd == CmdRead && (a.kind == KindAr ==> memory && image.Some? && LookAt(image.value).Recognised?)
    }

    // io and memory tell whether the operating system calls and allocations succeed; image is
    // what the file or the member at the cursor holds, None at the end of an archive.
    method Begin(fd: int, c: Cmd, a: Elf?, io: bool, memory: bool, image: Option<string>) returns (e: Elf?)
      requires Valid() && (a != null ==> a in live) && (a == null ==> image.Some?)
      requires (image.Some? ==> !Aborts(image.value))
      modifies this, live`activations, live`nchildren
      ensures Valid() && versionSet == old(versionSet)
      ensures e != null <==> old(Opens(fd, c, a, io, memory, image))
      ensures e == null ==> live == old(live)
      ensures e != null ==> e in live && live == old(live) + {e} && e.fd == fd && e.cmd == c
      ensures e != null ==> (e in old(live) <==> a != null && a.kind != KindAr)
      ensures e != null && e !in old(live) ==>
                e.activations == 1 && e.parent == a && e.kind == if c.CmdWrite? then KindElf else LookAt(image.value).kind
      ensures e != null && e in old(live) ==> e == a && e.activations == old(a.activations) + 1
      ensures forall f :: f in old(live) && f != e ==> f.activations == old(f.activations)
      ensures old(lost) <= lost
      ensures |lost| == |old(lost)| + if old(Reads(fd, c, a, io, memory, image)) && BadArchive(image.value) then 1 else 0
    {
      hide Forest, Mapped, NoneLeft, Counted, LookAt, Aborts, BadArchive;
      if !versionSet {
        return null;
      }
      if c.CmdNull? {
        return null;
      }
      if c.CmdWrite? {
        if a != null || !io || !memory {
          return null;
        }
        e := Allocate(KindElf, fd, c, null, None, false);
        return;
      }
      if c.CmdRdWr? && a != null {
        return null;
      }
      if a != null && (a.fd != fd || c != a.cmd) {
        return null;
      }
      if a == null {
        e := OpenObject(fd, c, io, memory, image.value);
      } else if a.kind == KindAr {
        e := OpenMember(fd, c, a, memory, image);
      } else {
        e := a;
        e.activations := e.activations + 1;
      }
    }

    // Once every activation has been ended no descriptor is in use; what is left are the lost.
    lemma NoneInUse()
      requires Valid() && forall e :: e in live ==> e.activations == 0
      ensures live == {}
    {
      if e :| e in live {
        Descend(e);
      }
    }

    lemma {:induction false} Descend(e: Elf)
      requires Valid() && e in live && forall f :: f in live ==> f.activations == 0
      ensures false
      decreases |Below(e)|
    {
      var c := PickChild(e);
      SmallerBelow(e, c);
      Descend(c);
    }

    ghost function Below(e: Elf): set<Elf>
      reads this
    {
      set f | f in live && f.depth > e.depth
    }

    lemma PickChild(e: Elf) returns (c: Elf)
      requires Valid() && e in live && e.activations == 0
      ensures c in live && c.depth > e.depth
    {
      assert InUse(e);
      assert |Children(live, e)| > 0;
      c :| c in Children(live, e);
    }

    lemma SmallerBelow(e: Elf, c: Elf)
      requires c in live && c.depth > e.depth
      ensures |Below(c)| < |Below(e)|
    {
      var rest := Below(e) - {c};
      assert Below(e) == rest + {c};
      assert rest == Below(c) + (rest - Below(c));
    }
  }
}
