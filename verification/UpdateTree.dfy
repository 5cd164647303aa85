/**
 The directory tree of the update sandbox and what its readers make of it: slots,
 a staging area and two install pointers, changed by single file operations.
 */
module UpdateTree {
  import opened Wrappers
  import Versioning

  const MAX_GENERATION := 1_000_000
  const MAX_SCHEMA := 1_000_000
  const MAX_DATA_BYTES := 1_048_576

  newtype Byte = x: int | 0 <= x < 256
  type Bytes = seq<Byte>

  /** SHA-256 as an injective function: a digest is identified with what was hashed. */
  datatype Digest = OfBytes(preimage: Bytes) | OfPointer(generation: int, slotId: string)

  datatype Channel = Stable | Beta | Nightly

  datatype SlotRecord = SlotRecord(
    slotId: string, version: string, channel: Channel, artifactSha256: Digest,
    dataSchema: int, dataSha256: Digest, healthy: bool)

  datatype PointerRecord = PointerRecord(generation: int, slotId: string, checksum: Digest)

  /** `Torn` is a file whose writing was cut off, or any text that is no such record. */
  datatype Content = Torn | Blob(bytes: Bytes) | SlotState(slot: SlotRecord) | Pointer(pointer: PointerRecord)

  type Dir = map<string, Content>

  datatype Place = PointerDir | StagingDir(id: string) | SlotDir(id: string)

  type Tree = map<Place, Dir>

  datatype Policy = Policy(maximumArtifactBytes: nat, minimumFreeSpaceMultiplier: nat, supportedPaths: seq<SupportedPath>)

  datatype SupportedPath = SupportedPath(sourceVersion: string, targetVersion: string)

  // ----- file operations -----

  datatype FsOp =
    | MakeDir(place: Place)
    | WriteFile(place: Place, name: string, content: Content)
    | UnlinkFile(place: Place, name: string)
    | RenameFile(place: Place, from: string, to: string)
    | RenameDir(source: Place, target: Place)
    | RemoveDir(place: Place)

  function Exec(tree: Tree, op: FsOp): Tree
  {
    match op
    case MakeDir(p) => if p in tree then tree else tree[p := map[]]
    case WriteFile(p, n, c) => if p in tree then tree[p := tree[p][n := c]] else tree
    case UnlinkFile(p, n) => if p in tree then tree[p := tree[p] - {n}] else tree
    case RenameFile(p, from, to) =>
      if p in tree && from in tree[p] then tree[p := (tree[p] - {from})[to := tree[p][from]]] else tree
    case RenameDir(from, to) => if from in tree then (tree - {from})[to := tree[from]] else tree
    case RemoveDir(p) => tree - {p}
  }

  function ExecAll(tree: Tree, ops: seq<FsOp>): Tree
    decreases |ops|
  {
    if ops == [] then tree else ExecAll(Exec(tree, ops[0]), ops[1..])
  }

  // ----- readers -----

  predicate IsSafeChar(c: char) { 'a' <= c <= 'z' || '0' <= c <= '9' || c == '.' || c == '-' }

  predicate IsSafeEnd(c: char) { 'a' <= c <= 'z' || '0' <= c <= '9' }

  predicate IsSafeId(id: string)
  {
    && 1 <= |id| <= 80 && IsSafeEnd(id[0]) && IsSafeEnd(id[|id| - 1])
    && forall i :: 0 <= i < |id| ==> IsSafeChar(id[i])
  }

  predicate IsVersionText(text: string)
  {
    1 <= |text| <= 64 && Versioning.IsSemanticVersion(text)
  }

  function PointerChecksum(generation: int, slotId: string): Digest { OfPointer(generation, slotId) }

  predicate SlotParses(r: SlotRecord)
  {
    IsSafeId(r.slotId) && IsVersionText(r.version) && 0 <= r.dataSchema <= MAX_SCHEMA
    && r.artifactSha256.OfBytes? && r.dataSha256.OfBytes?
  }

  predicate PointerParses(p: PointerRecord)
  {
    1 <= p.generation <= MAX_GENERATION && IsSafeId(p.slotId) && p.checksum == PointerChecksum(p.generation, p.slotId)
  }

  datatype Installed = Installed(record: SlotRecord, data: Bytes)

  /** What `readSlot` accepts: an identified record whose digests match both files. */
  function ReadSlotDir(policy: Policy, slotId: string, dir: Dir): Option<Installed>
  {
    if !("state.json" in dir && dir["state.json"].SlotState?) then None
    else
      var r := dir["state.json"].slot;
      if !(SlotParses(r) && r.slotId == slotId) then None
      else if !("app.bin" in dir && dir["app.bin"].Blob? && "data.bin" in dir && dir["data.bin"].Blob?) then None
      else
        var artifact, data := dir["app.bin"].bytes, dir["data.bin"].bytes;
        if |artifact| > policy.maximumArtifactBytes || |data| > MAX_DATA_BYTES
           || OfBytes(artifact) != r.artifactSha256 || OfBytes(data) != r.dataSha256
        then None
        else Some(Installed(r, data))
  }

  function ReadSlot(policy: Policy, tree: Tree, slotId: string): Option<Installed>
  {
    if IsSafeId(slotId) && SlotDir(slotId) in tree then ReadSlotDir(policy, slotId, tree[SlotDir(slotId)]) else None
  }

  /** No pointer to such a slot is valid. */
  predicate Dead(slot: Option<Installed>) { slot.None? || !slot.value.record.healthy }

  datatype PointerName = A | B {
    function File(): string { if A? then "a.json" else "b.json" }
    function Other(): PointerName { if A? then B else A }
  }

  function PointerAt(tree: Tree, name: PointerName): Option<PointerRecord>
  {
    if PointerDir in tree && name.File() in tree[PointerDir] && tree[PointerDir][name.File()].Pointer?
       && PointerParses(tree[PointerDir][name.File()].pointer)
    then Some(tree[PointerDir][name.File()].pointer)
    else None
  }

  datatype Entry = Entry(pointer: PointerRecord, slot: Installed)

  /** A valid pointer with the healthy slot it names. */
  function EntryAt(policy: Policy, tree: Tree, name: PointerName): Option<Entry>
  {
    match PointerAt(tree, name)
    case None => None
    case Some(p) =>
      match ReadSlot(policy, tree, p.slotId)
      case None => None
      case Some(s) => if s.record.healthy then Some(Entry(p, s)) else None
  }

  /** Everything the public operations can learn about the installation. */
  datatype View = View(a: Option<Entry>, b: Option<Entry>) {
    function At(name: PointerName): Option<Entry> { if name.A? then a else b }
    function With(name: PointerName, e: Option<Entry>): View { if name.A? then View(e, b) else View(a, e) }
  }

  function ViewOf(policy: Policy, tree: Tree): View
  {
    View(EntryAt(policy, tree, A), EntryAt(policy, tree, B))
  }

  datatype ActiveInstall = ActiveInstall(record: SlotRecord, data: Bytes, pointer: PointerName, generation: int)

  datatype Named = Named(name: PointerName, entry: Entry)

  /** Valid pointers, highest generation first (the source's stable sort of at most two). */
  function ValidPointers(v: View): seq<Named>
  {
    if v.a.None? && v.b.None? then []
    else if v.b.None? then [Named(A, v.a.value)]
    else if v.a.None? then [Named(B, v.b.value)]
    else if v.b.value.pointer.generation > v.a.value.pointer.generation
      then [Named(B, v.b.value), Named(A, v.a.value)]
    else [Named(A, v.a.value), Named(B, v.b.value)]
  }

  function Install(n: Named): ActiveInstall
  {
    ActiveInstall(n.entry.slot.record, n.entry.slot.data, n.name, n.entry.pointer.generation)
  }

  /** `active()`: `None` is the error `no_healthy_installation`. */
  function ActiveOf(v: View): Option<ActiveInstall>
  {
    if ValidPointers(v) == [] then None else Some(Install(ValidPointers(v)[0]))
  }

  function Active(policy: Policy, tree: Tree): Option<ActiveInstall> { ActiveOf(ViewOf(policy, tree)) }

  /** The slots that `recover` keeps. */
  function ReferencedIn(v: View): set<string>
  {
    (if v.a.Some? then {v.a.value.pointer.slotId} else {}) + (if v.b.Some? then {v.b.value.pointer.slotId} else {})
  }

  /**
   The installation can boot: an active install exists, and two valid pointers share
   neither a generation nor a slot.
   */
  ghost predicate Sound(v: View)
  {
    && (v.a.Some? || v.b.Some?)
    && (v.a.Some? && v.b.Some? ==>
          && v.a.value.pointer.generation != v.b.value.pointer.generation
          && v.a.value.pointer.slotId != v.b.value.pointer.slotId)
  }

  ghost predicate Bootable(policy: Policy, tree: Tree)
  {
    PointerDir in tree && Sound(ViewOf(policy, tree))
  }

  // ----- what single operations do to the view -----

  lemma EntryShape(policy: Policy, tree: Tree, name: PointerName)
    requires EntryAt(policy, tree, name).Some?
    ensures var e := EntryAt(policy, tree, name).value;
            && e.slot.record.slotId == e.pointer.slotId && e.slot.record.healthy
            && 1 <= e.pointer.generation <= MAX_GENERATION && SlotDir(e.pointer.slotId) in tree
            && IsSafeId(e.pointer.slotId)
  {
  }

  /** Slots and pointer files that are equal read equally. */
  lemma SameEntry(policy: Policy, t: Tree, t': Tree, name: PointerName)
    requires PointerDir in t && PointerDir in t'
    requires name.File() in t[PointerDir] <==> name.File() in t'[PointerDir]
    requires name.File() in t[PointerDir] ==> t[PointerDir][name.File()] == t'[PointerDir][name.File()]
    requires PointerAt(t, name).Some? ==>
               var id := PointerAt(t, name).value.slotId;
               var before, after := ReadSlot(policy, t, id), ReadSlot(policy, t', id);
               before == after || (Dead(before) && Dead(after))
    ensures EntryAt(policy, t', name) == EntryAt(policy, t, name)
  {
  }

  /** An operation inside the staging area is invisible. */
  lemma StagingIsInvisible(policy: Policy, t: Tree, op: FsOp)
    requires PointerDir in t
    requires op.MakeDir? || op.WriteFile? || op.UnlinkFile? || op.RemoveDir?
    requires op.place.StagingDir?
    ensures PointerDir in Exec(t, op) && ViewOf(policy, Exec(t, op)) == ViewOf(policy, t)
  {
    SameEntry(policy, t, Exec(t, op), A);
    SameEntry(policy, t, Exec(t, op), B);
  }

  /** So is a file beside the pointers that is no pointer. */
  lemma OtherPointerFileIsInvisible(policy: Policy, t: Tree, op: FsOp)
    requires PointerDir in t
    requires op.WriteFile? || op.UnlinkFile?
    requires op.place.PointerDir? && op.name != A.File() && op.name != B.File()
    ensures PointerDir in Exec(t, op) && ViewOf(policy, Exec(t, op)) == ViewOf(policy, t)
  {
    SameEntry(policy, t, Exec(t, op), A);
    SameEntry(policy, t, Exec(t, op), B);
  }

  /** So is any change of a slot that is unreadable or unhealthy before and after. */
  lemma DeadSlotIsInvisible(policy: Policy, t: Tree, t': Tree, id: string)
    requires PointerDir in t && PointerDir in t' && t[PointerDir] == t'[PointerDir]
    requires forall other :: other != id ==>
               (SlotDir(other) in t <==> SlotDir(other) in t') && (SlotDir(other) in t ==> t[SlotDir(other)] == t'[SlotDir(other)])
    requires Dead(ReadSlot(policy, t, id)) && Dead(ReadSlot(policy, t', id))
    ensures ViewOf(policy, t') == ViewOf(policy, t)
  {
    SameEntry(policy, t, t', A);
    SameEntry(policy, t, t', B);
  }

  lemma UnlinkPointer(policy: Policy, t: Tree, name: PointerName)
    requires PointerDir in t
    ensures var t' := Exec(t, UnlinkFile(PointerDir, name.File()));
            PointerDir in t' && ViewOf(policy, t') == ViewOf(policy, t).With(name, None)
  {
    SameEntry(policy, t, Exec(t, UnlinkFile(PointerDir, name.File())), name.Other());
  }

  /** Renaming a complete temporary file over a pointer installs that pointer. */
  lemma RenamePointer(policy: Policy, t: Tree, name: PointerName, temporary: string, p: PointerRecord)
    requires PointerDir in t && temporary != A.File() && temporary != B.File()
    requires temporary in t[PointerDir] && t[PointerDir][temporary] == Pointer(p)
    ensures var t' := Exec(t, RenameFile(PointerDir, temporary, name.File()));
            var s := ReadSlot(policy, t, p.slotId);
            && PointerDir in t'
            && ViewOf(policy, t') == ViewOf(policy, t).With(name,
                 if PointerParses(p) && s.Some? && s.value.record.healthy then Some(Entry(p, s.value)) else None)
            && (forall q :: q != PointerDir ==> (q in t <==> q in t') && (q in t ==> t[q] == t'[q]))
            && PointerAt(t', name) == (if PointerParses(p) then Some(p) else None)
            && PointerAt(t', name.Other()) == PointerAt(t, name.Other())
  {
    hide Exec, ReadSlotDir, PointerParses;
    PointerRenamed(policy, t, name, temporary, p);
    SameEntry(policy, t, Exec(t, RenameFile(PointerDir, temporary, name.File())), name.Other());
  }

  /** What the rename leaves to the readers. */
  lemma PointerRenamed(policy: Policy, t: Tree, name: PointerName, temporary: string, p: PointerRecord)
    requires PointerDir in t && temporary != A.File() && temporary != B.File()
    requires temporary in t[PointerDir] && t[PointerDir][temporary] == Pointer(p)
    ensures var t' := Exec(t, RenameFile(PointerDir, temporary, name.File()));
            && PointerDir in t'
            && (forall q :: q != PointerDir ==> (q in t <==> q in t') && (q in t ==> t[q] == t'[q]))
            && PointerAt(t', name) == (if PointerParses(p) then Some(p) else None)
            && (name.Other().File() in t[PointerDir] <==> name.Other().File() in t'[PointerDir])
            && (name.Other().File() in t[PointerDir] ==>
                  t[PointerDir][name.Other().File()] == t'[PointerDir][name.Other().File()])
  {
    hide PointerParses;
    assert A.File()[0] != B.File()[0];
  }

  lemma {:induction false} ExecAllAppend(t: Tree, first: seq<FsOp>, second: seq<FsOp>)
    ensures ExecAll(t, first + second) == ExecAll(ExecAll(t, first), second)
    decreases |first|
  {
    if first == [] {
      assert first + second == second;
    } else {
      assert (first + second)[1..] == first[1..] + second;
      ExecAllAppend(Exec(t, first[0]), first[1..], second);
    }
  }
}
