/** Building a zero state: every workchain gets an empty state in a file named by its hash, its
    descriptor is made to refer to that file, and the master state follows the same way. */
module ZeroState {
  import opened Wrappers
  import opened Octets
  import opened Cells
  import Base64
  import Hex
  import Messages

  /** The state of a workchain's full shard with nothing in it. */
  datatype ShardState = ShardState(workchain: I32, genTime: U32, globalId: I32, minRefMcSeqno: U32)

  datatype Descr<D> = Descr(rootHash: Key, fileHash: Key, rest: D)

  datatype McExtra<D, R> = McExtra(workchains: map<I32, Descr<D>>, validatorListHashShort: U32,
                                   nxCcUpdated: bool, catchainSeqno: U32, rest: R)

  /** A state without an extra part is no masterchain state. */
  datatype McState<D, R> = McState(genTime: U32, globalId: I32, extra: Option<McExtra<D, R>>)

  /** The library's functions; None is an error. */
  datatype Library<!D, !R> = Library(
    serialize: ShardState -> Option<Cell>,
    serializeMc: McState<D, R> -> Option<Cell>,
    reprHash: Cell -> Key,
    writeBoc: Cell -> Option<Bytes>,
    fileHash: Bytes -> Key,
    calcSubset: (McExtra<D, R>, U32) -> Option<U32>,
    readMc: Bytes -> Option<McState<D, R>>,
    canWrite: string -> bool)

  datatype Failure = NoExtra | LibraryError | CannotWrite

  const MAX_SEQNO: U32 := 0xffff_ffff
  const CONFIG_FILE := "config.json"

  /** `config.json`: the hashes in base64. */
  datatype ConfigJson = ConfigJson(workchain: int, shard: int, seqno: int, rootHash: string, fileHash: string)

  function FileName(hash: Key): string {
    Hex.Lower(hash) + ".boc"
  }

  function EmptyState<D, R>(mc: McState<D, R>, wc: I32): (s: ShardState)
    ensures s.workchain == wc && s.genTime == mc.genTime && s.globalId == mc.globalId
    ensures s.minRefMcSeqno == 0xffff_ffff
  {
    ShardState(wc, mc.genTime, mc.globalId, MAX_SEQNO)
  }

  /** A cell's bag exists. */
  predicate Sealed<D, R>(lib: Library<D, R>, cell: Option<Cell>) {
    cell.Some? && lib.writeBoc(cell.value).Some?
  }

  function BagOf<D, R>(lib: Library<D, R>, cell: Option<Cell>): Bytes
    requires Sealed(lib, cell)
  {
    lib.writeBoc(cell.value).value
  }

  predicate Serializable<D, R>(lib: Library<D, R>, mc: McState<D, R>, wc: I32) {
    Sealed(lib, lib.serialize(EmptyState(mc, wc)))
  }

  function Bag<D, R>(lib: Library<D, R>, mc: McState<D, R>, wc: I32): Bytes
    requires Serializable(lib, mc, wc)
  {
    BagOf(lib, lib.serialize(EmptyState(mc, wc)))
  }

  function FileHash<D, R>(lib: Library<D, R>, mc: McState<D, R>, wc: I32): Key
    requires Serializable(lib, mc, wc)
  {
    lib.fileHash(Bag(lib, mc, wc))
  }

  /** The descriptor of a workchain with the hashes of its own empty state. */
  function Redescribed<D, R>(lib: Library<D, R>, mc: McState<D, R>, wc: I32, d: Descr<D>): Descr<D>
    requires Serializable(lib, mc, wc)
  {
    d.(rootHash := lib.reprHash(lib.serialize(EmptyState(mc, wc)).value),
       fileHash := FileHash(lib, mc, wc))
  }

  /** All descriptors redescribed at once. */
  ghost function Rewritten<D, R>(lib: Library<D, R>, mc: McState<D, R>, workchains: map<I32, Descr<D>>)
    : (m: map<I32, Descr<D>>)
    requires forall wc | wc in workchains :: Serializable(lib, mc, wc)
    ensures m.Keys == workchains.Keys
  {
    map wc | wc in workchains :: Redescribed(lib, mc, wc, workchains[wc])
  }

  /** The empty state of a workchain has a bag, and its file can be written. */
  predicate Placeable<D, R>(lib: Library<D, R>, mc: McState<D, R>, wc: I32) {
    Serializable(lib, mc, wc) && lib.canWrite(FileName(FileHash(lib, mc, wc)))
  }

  /** What an import needs: a masterchain state, a place for every empty state, and validators. */
  ghost predicate Importable<D, R>(lib: Library<D, R>, mc: McState<D, R>) {
    && mc.extra.Some?
    && var from := mc.extra.value;
       && (forall wc | wc in from.workchains :: Placeable(lib, mc, wc))
       && lib.calcSubset(from.(workchains := Rewritten(lib, mc, from.workchains)), mc.genTime).Some?
  }

  /** What writing the master state needs: a bag that can be read back, and two files that can be
      written. */
  predicate MasterPlaceable<D, R>(lib: Library<D, R>, mc: McState<D, R>) {
    var cell := lib.serializeMc(mc);
    && Sealed(lib, cell)
    && var bytes := BagOf(lib, cell);
       && lib.canWrite(FileName(lib.fileHash(bytes)))
       && lib.readMc(bytes).Some? && lib.readMc(bytes).value.extra.Some?
       && lib.canWrite("config.json")
  }

  /** The imported state: each workchain's descriptor redescribed, the file it names filled with one of
      the bags, the validators recalculated from the new configuration, and everything else as it was. */
  ghost predicate Imported<D, R>(lib: Library<D, R>, mc: McState<D, R>, after: McState<D, R>,
                                 files: map<string, Bytes>, bags: set<Bytes>) {
    && mc.extra.Some? && after.extra.Some?
    && var from, to := mc.extra.value, after.extra.value;
       && (forall wc | wc in from.workchains :: Serializable(lib, mc, wc))
       && to.workchains == Rewritten(lib, mc, from.workchains)
       && (forall wc | wc in to.workchains :: HoldsOneOf(lib, files, to.workchains[wc].fileHash, bags))
       && lib.calcSubset(from.(workchains := to.workchains), mc.genTime)
          == Some(to.validatorListHashShort)
       && to.nxCcUpdated && to.catchainSeqno == 0 && to.rest == from.rest
       && after == mc.(extra := after.extra)
  }

  /** The master state's bag is in the file its hash names, it can be read, and `json` points to it. */
  predicate MasterWritten<D, R>(lib: Library<D, R>, mc: McState<D, R>, files: map<string, Bytes>,
                                json: ConfigJson) {
    var cell := lib.serializeMc(mc);
    && Sealed(lib, cell)
    && var bytes := BagOf(lib, cell);
       && FileName(lib.fileHash(bytes)) in files && files[FileName(lib.fileHash(bytes))] == bytes
       && lib.readMc(bytes).Some? && lib.readMc(bytes).value.extra.Some?
       && json == ConfigJson(-1, -0x8000_0000_0000_0000, 0,
                             Base64.Encode(lib.reprHash(cell.value)), Base64.Encode(lib.fileHash(bytes)))
  }

  // ---- content addressing ----

  /** The file with the name of this hash is there and holds bytes with this hash. */
  predicate Holds<D, R>(lib: Library<D, R>, files: map<string, Bytes>, hash: Key) {
    FileName(hash) in files && lib.fileHash(files[FileName(hash)]) == hash
  }

  lemma FileNameExact(a: Key, b: Key)
    ensures FileName(a) == Hex.Lower(a) + ".boc"
    ensures FileName(a) == FileName(b) <==> a == b
  {
    var x, y := FileName(a), FileName(b);
    assert x[..64] == Hex.Lower(a) && y[..64] == Hex.Lower(b);
    Hex.RoundTrip(a);
    Hex.RoundTrip(b);
  }

  /** And these bytes are one of the bags. */
  predicate HoldsOneOf<D, R>(lib: Library<D, R>, files: map<string, Bytes>, hash: Key, bags: set<Bytes>) {
    Holds(lib, files, hash) && files[FileName(hash)] in bags
  }

  /** An imported state is the given one but for the hashes in its workchain descriptors, the validators'
      hash, a flag that is set and a counter that starts over. */
  lemma ImportedState<D, R>(lib: Library<D, R>, mc: McState<D, R>, after: McState<D, R>,
                            files: map<string, Bytes>, bags: set<Bytes>)
    requires Imported(lib, mc, after, files, bags)
    ensures after.genTime == mc.genTime && after.globalId == mc.globalId
    ensures var from, to := mc.extra.value, after.extra.value;
            && to.nxCcUpdated && to.catchainSeqno == 0 && to.rest == from.rest
            && lib.calcSubset(from.(workchains := to.workchains), mc.genTime) == Some(to.validatorListHashShort)
            && to.workchains.Keys == from.workchains.Keys
            && forall wc | wc in to.workchains ::
                 && to.workchains[wc].rest == from.workchains[wc].rest
                 && Holds(lib, files, to.workchains[wc].fileHash)
  {
    hide Holds, Serializable, FileHash;
    var to := after.extra.value;
    assert forall wc | wc in to.workchains :: HoldsOneOf(lib, files, to.workchains[wc].fileHash, bags);
  }

  /** The bags of the empty states of these workchains. */
  ghost function BagsOf<D, R>(lib: Library<D, R>, mc: McState<D, R>, wcs: set<I32>): set<Bytes> {
    set wc | wc in wcs && Serializable(lib, mc, wc) :: Bag(lib, mc, wc)
  }

  /** The bags an import can write. */
  ghost function WorkchainBags<D, R>(lib: Library<D, R>, mc: McState<D, R>): set<Bytes> {
    if mc.extra.None? then {} else BagsOf(lib, mc, mc.extra.value.workchains.Keys)
  }

  /** The bag of the master state, if it has one. */
  ghost function MasterBags<D, R>(lib: Library<D, R>, mc: McState<D, R>): set<Bytes> {
    var cell := lib.serializeMc(mc);
    if Sealed(lib, cell) then {BagOf(lib, cell)} else {}
  }

  /** No file is lost, and each file that is new or changed holds one of the bags under the name of its
      hash. */
  ghost predicate OnlyAdded<D, R>(lib: Library<D, R>, bags: set<Bytes>,
                                  before: map<string, Bytes>, after: map<string, Bytes>) {
    && before.Keys <= after.Keys
    && forall name | name in after ::
         || (name in before && before[name] == after[name])
         || (after[name] in bags && name == FileName(lib.fileHash(after[name])))
  }

  lemma AddedAfter<D, R>(lib: Library<D, R>, bags1: set<Bytes>, bags2: set<Bytes>,
                         first: map<string, Bytes>, second: map<string, Bytes>, third: map<string, Bytes>)
    requires OnlyAdded(lib, bags1, first, second) && OnlyAdded(lib, bags2, second, third)
    ensures OnlyAdded(lib, bags1 + bags2, first, third)
  {
    hide FileName;
  }

  /** Adding bags under their own hashes never makes another hash's file wrong. */
  lemma AddingKeeps<D, R>(lib: Library<D, R>, bags: set<Bytes>, before: map<string, Bytes>,
                          after: map<string, Bytes>, hash: Key, held: set<Bytes>)
    requires OnlyAdded(lib, bags, before, after)
    ensures Holds(lib, before, hash) ==> Holds(lib, after, hash)
    ensures HoldsOneOf(lib, before, hash, held) ==> HoldsOneOf(lib, after, hash, held + bags)
  {
    if FileName(hash) in after {
      FileNameExact(hash, lib.fileHash(after[FileName(hash)]));
    }
    hide FileName;
  }

  lemma BagAdded<D, R>(lib: Library<D, R>, bags: set<Bytes>, bytes: Bytes, files: map<string, Bytes>)
    requires bytes in bags
    ensures var after := files[FileName(lib.fileHash(bytes)) := bytes];
            OnlyAdded(lib, bags, files, after) && HoldsOneOf(lib, after, lib.fileHash(bytes), bags)
  {
    hide FileName;
  }

  lemma AllRedescribed<D, R>(lib: Library<D, R>, mc: McState<D, R>, workchains: map<I32, Descr<D>>,
                             live: map<I32, Descr<D>>, files: map<string, Bytes>, bags: set<Bytes>)
    requires live.Keys == workchains.Keys
    requires forall wc | wc in workchains ::
               && Serializable(lib, mc, wc)
               && live[wc] == Redescribed(lib, mc, wc, workchains[wc])
               && HoldsOneOf(lib, files, FileHash(lib, mc, wc), bags)
    ensures live == Rewritten(lib, mc, workchains)
    ensures forall wc | wc in live :: HoldsOneOf(lib, files, live[wc].fileHash, bags)
  {
    hide HoldsOneOf, Serializable, FileHash;
  }

  // ---- the tool ----

  class ZeroStateTool<D, R> {
    const lib: Library<D, R>
    var files: map<string, Bytes>
    var config: Option<ConfigJson>

    constructor (lib: Library<D, R>, files: map<string, Bytes>)
      ensures this.lib == lib && this.files == files && this.config == None
    {
      this.lib, this.files, this.config := lib, files, None;
    }

    /** A bag goes into the file its hash names. */
    method WriteBag(bytes: Bytes) returns (ok: bool)
      modifies this`files
      ensures var name := FileName(lib.fileHash(bytes));
              ok == lib.canWrite(name) &&
              files == if ok then old(files)[name := bytes] else old(files)
    {
      var name := FileName(lib.fileHash(bytes));
      if !lib.canWrite(name) {
        return false;
      }
      files := files[name := bytes];
      ok := true;
    }

    /** One workchain: its empty state goes into a file and its hashes into the descriptor. */
    method WriteEmptyState(mc: McState<D, R>, wc: I32, before: Descr<D>)
      returns (ok: bool, descr: Descr<D>)
      modifies this`files
      ensures ok <==> Placeable(lib, mc, wc)
      ensures ok ==> Serializable(lib, mc, wc) && descr == Redescribed(lib, mc, wc, before)
      ensures ok ==> files == old(files)[FileName(FileHash(lib, mc, wc)) := Bag(lib, mc, wc)]
      ensures !ok ==> files == old(files)
    {
      hide FileName;
      descr := before;
      var cell := lib.serialize(EmptyState(mc, wc));
      if cell.None? {
        return false, descr;
      }
      descr := descr.(rootHash := lib.reprHash(cell.value));
      var bytes := lib.writeBoc(cell.value);
      if bytes.None? {
        return false, descr;
      }
      descr := descr.(fileHash := lib.fileHash(bytes.value));
      ok := WriteBag(bytes.value);
    }

    /** The walk over a snapshot of the workchain map, in any order: the live map is updated and a file
        is written at each step. */
    method RewriteWorkchains(mc: McState<D, R>, workchains: map<I32, Descr<D>>)
      returns (ok: bool, live: map<I32, Descr<D>>)
      modifies this`files
      ensures ok <==> forall wc | wc in workchains :: Placeable(lib, mc, wc)
      ensures ok ==> live == Rewritten(lib, mc, workchains)
      ensures ok ==> forall wc | wc in live ::
                       HoldsOneOf(lib, files, live[wc].fileHash, BagsOf(lib, mc, workchains.Keys))
      ensures OnlyAdded(lib, BagsOf(lib, mc, workchains.Keys), old(files), files)
    {
      hide FileName, Bag, Serializable, Placeable, HoldsOneOf, Redescribed;
      live := workchains;
      ghost var bags := BagsOf(lib, mc, workchains.Keys);
      var pending := workchains.Keys;
      while pending != {}
        invariant pending <= workchains.Keys && live.Keys == workchains.Keys
        invariant forall wc | wc in pending :: live[wc] == workchains[wc]
        invariant forall wc | wc in workchains && wc !in pending ::
            && Placeable(lib, mc, wc) && Serializable(lib, mc, wc)
            && live[wc] == Redescribed(lib, mc, wc, workchains[wc])
            && HoldsOneOf(lib, files, FileHash(lib, mc, wc), bags)
        invariant OnlyAdded(lib, bags, old(files), files)
        decreases |pending|
      {
        hide OnlyAdded;
        var wc :| wc in pending;
        ghost var before := files;
        var written, descr := WriteEmptyState(mc, wc, workchains[wc]);
        if !written {
          return false, live;
        }
        BagAdded(lib, bags, Bag(lib, mc, wc), before);
        AddedAfter(lib, bags, bags, old(files), before, files);
        assert bags + bags == bags;
        forall other | other in workchains && other !in pending
          ensures HoldsOneOf(lib, files, FileHash(lib, mc, other), bags) {
          AddingKeeps(lib, bags, before, files, FileHash(lib, mc, other), bags);
        }
        live := live[wc := descr];
        pending := pending - {wc};
      }
      AllRedescribed(lib, mc, workchains, live, files, bags);
      ok := true;
    }

    /** `import_zerostate` on a parsed state. */
    method Import(mc: McState<D, R>) returns (r: Result<McState<D, R>, Failure>)
      modifies this`files
      ensures mc.extra.None? ==> r == Result.Failure(NoExtra) && files == old(files)
      ensures r.Success? <==> Importable(lib, mc)
      ensures r.Success? ==> Imported(lib, mc, r.value, files, WorkchainBags(lib, mc))
      // On every outcome:
      ensures OnlyAdded(lib, WorkchainBags(lib, mc), old(files), files)
      ensures forall h: Key | Holds(lib, old(files), h) :: Holds(lib, files, h)
    {
      if mc.extra.None? {
        return Result.Failure(NoExtra);
      }
      hide Holds, FileName, OnlyAdded, HoldsOneOf;
      var extra := mc.extra.value;
      var ok, workchains := RewriteWorkchains(mc, extra.workchains);
      forall h: Key ensures Holds(lib, old(files), h) ==> Holds(lib, files, h) {
        AddingKeeps(lib, WorkchainBags(lib, mc), old(files), files, h, {});
      }
      if !ok {
        return Result.Failure(LibraryError);
      }
      extra := extra.(workchains := workchains);
      var hashShort := lib.calcSubset(extra, mc.genTime);
      if hashShort.None? {
        return Result.Failure(LibraryError);
      }
      extra := extra.(validatorListHashShort := hashShort.value);
      extra := extra.(nxCcUpdated := true);
      extra := extra.(catchainSeqno := 0);
      r := Success(mc.(extra := Some(extra)));
    }

    /** `write_zero_state`: the master state's own file, read back, and `config.json`. */
    method Write(mc: McState<D, R>) returns (r: Result<ConfigJson, Failure>)
      modifies this`files, this`config
      ensures r.Success? <==> MasterPlaceable(lib, mc)
      ensures r.Success? ==> MasterWritten(lib, mc, files, r.value) && config == Some(r.value)
      ensures r.Failure? ==> config == old(config)
      ensures files == old(files) ||
              (Sealed(lib, lib.serializeMc(mc)) &&
               var bytes := BagOf(lib, lib.serializeMc(mc));
               files == old(files)[FileName(lib.fileHash(bytes)) := bytes])
      // On every outcome:
      ensures OnlyAdded(lib, MasterBags(lib, mc), old(files), files)
      ensures forall h: Key | Holds(lib, old(files), h) :: Holds(lib, files, h)
    {
      hide FileName, Holds;
      var cell := lib.serializeMc(mc);
      if cell.None? || lib.writeBoc(cell.value).None? {
        return Result.Failure(LibraryError);
      }
      var bytes := lib.writeBoc(cell.value).value;
      var hash := lib.fileHash(bytes);
      var written := WriteBag(bytes);
      if !written {
        return Result.Failure(CannotWrite);
      }
      BagAdded(lib, MasterBags(lib, mc), bytes, old(files));
      forall h: Key ensures Holds(lib, old(files), h) ==> Holds(lib, files, h) {
        AddingKeeps(lib, MasterBags(lib, mc), old(files), files, h, {});
      }
      var back := lib.readMc(bytes);
      if back.None? || back.value.extra.None? {
        return Result.Failure(LibraryError);
      }
      if !lib.canWrite(CONFIG_FILE) {
        return Result.Failure(CannotWrite);
      }
      r := Success(ConfigJson(-1, -0x8000_0000_0000_0000, 0,
                              Base64.Encode(lib.reprHash(cell.value)), Base64.Encode(hash)));
      config := Some(r.value);
    }

    /** The whole tool: import, the contract updates made by `update`, and the master state. */
    method Build(mc: McState<D, R>, update: McState<D, R> -> Option<McState<D, R>>)
      returns (r: Result<ConfigJson, Failure>, ghost imported: McState<D, R>, ghost built: McState<D, R>)
      modifies this`files, this`config
      ensures Importable(lib, mc) ==>
                && Imported(lib, mc, imported, files, WorkchainBags(lib, mc) + MasterBags(lib, built))
                && (update(imported).Some? ==> update(imported) == Some(built))
      ensures r.Success? <==>
                Importable(lib, mc) && update(imported).Some? && MasterPlaceable(lib, built)
      ensures r.Success? ==> MasterWritten(lib, built, files, r.value) && config == Some(r.value)
      // Wherever the run stops, each file it has touched holds a bag under the name of its hash.
      ensures OnlyAdded(lib, WorkchainBags(lib, mc) + MasterBags(lib, built), old(files), files)
      ensures forall h: Key | Holds(lib, old(files), h) :: Holds(lib, files, h)
      ensures r.Failure? ==> config == old(config)
    {
      hide Holds, FileName, OnlyAdded, HoldsOneOf, MasterWritten, MasterBags, WorkchainBags;
      imported, built := mc, mc;
      r := Result.Failure(LibraryError);
      var imp := Import(mc);
      NothingAdded(lib, MasterBags(lib, mc), files);
      AddedAfter(lib, WorkchainBags(lib, mc), MasterBags(lib, mc), old(files), files, files);
      if imp.Failure? {
        r := Result.Failure(imp.error);
        return;
      }
      imported := imp.value;
      ghost var before := files;
      NothingAdded(lib, MasterBags(lib, mc), files);
      ImportedKept(lib, mc, imported, before, files, WorkchainBags(lib, mc), MasterBags(lib, built));
      var updated := update(imp.value);
      if updated.None? {
        return;
      }
      built := updated.value;
      r := Write(updated.value);
      AddedAfter(lib, WorkchainBags(lib, mc), MasterBags(lib, built), old(files), before, files);
      ImportedKept(lib, mc, imported, before, files, WorkchainBags(lib, mc), MasterBags(lib, built));
    }
  }

  lemma NothingAdded<D, R>(lib: Library<D, R>, bags: set<Bytes>, files: map<string, Bytes>)
    ensures OnlyAdded(lib, bags, files, files)
  {
  }

  /** Later bags do not spoil what an import has written. */
  lemma ImportedKept<D, R>(lib: Library<D, R>, mc: McState<D, R>, after: McState<D, R>,
                           before: map<string, Bytes>, files: map<string, Bytes>,
                           held: set<Bytes>, bags: set<Bytes>)
    requires Imported(lib, mc, after, before, held) && OnlyAdded(lib, bags, before, files)
    ensures Imported(lib, mc, after, files, held + bags)
  {
    hide HoldsOneOf, OnlyAdded, FileName;
    var to := after.extra.value;
    forall wc | wc in to.workchains
      ensures HoldsOneOf(lib, files, to.workchains[wc].fileHash, held + bags) {
      AddingKeeps(lib, bags, before, files, to.workchains[wc].fileHash, held);
    }
  }

  // ---- what the references are good for ----

  /** No two of these finitely many byte strings share a file hash. */
  ghost predicate DistinctHashes<D, R>(lib: Library<D, R>, bags: set<Bytes>) {
    forall a, b | a in bags && b in bags :: lib.fileHash(a) == lib.fileHash(b) ==> a == b
  }

  /** `read` recovers a shard state from the bag of its cell. */
  ghost predicate ReadsStates<D, R>(lib: Library<D, R>, read: Bytes -> Option<ShardState>) {
    forall s: ShardState :: Sealed(lib, lib.serialize(s)) ==>
                              read(BagOf(lib, lib.serialize(s))) == Some(s)
  }

  /** If the hash tells apart the bags that were written, a workchain's recorded file hash in hexadecimal
      names a file that reads back as a state of that workchain with the time and global id of the master
      state and the greatest sequence number, and whose cell has the recorded root hash. */
  lemma DescriptorNamesItsState<D, R>(lib: Library<D, R>, mc: McState<D, R>, after: McState<D, R>,
                                      wc: I32, files: map<string, Bytes>, bags: set<Bytes>,
                                      read: Bytes -> Option<ShardState>)
    requires Imported(lib, mc, after, files, bags) && WorkchainBags(lib, mc) <= bags
    requires DistinctHashes(lib, bags) && ReadsStates(lib, read)
    requires wc in mc.extra.value.workchains
    ensures var d := after.extra.value.workchains[wc];
            && Hex.Lower(d.fileHash) + ".boc" in files
            && var state := read(files[Hex.Lower(d.fileHash) + ".boc"]);
            && state.Some?
            && state.value.workchain == wc && state.value.genTime == mc.genTime
            && state.value.globalId == mc.globalId && state.value.minRefMcSeqno == 0xffff_ffff
            && lib.serialize(state.value).Some?
            && lib.reprHash(lib.serialize(state.value).value) == d.rootHash
            && d.rest == mc.extra.value.workchains[wc].rest
  {
    FileNameExact(FileHash(lib, mc, wc), FileHash(lib, mc, wc));
    hide FileName;
    var bytes := Bag(lib, mc, wc);
    assert bytes in WorkchainBags(lib, mc);
    assert lib.fileHash(files[FileName(lib.fileHash(bytes))]) == lib.fileHash(bytes);
    assert read(bytes) == Some(EmptyState(mc, wc));
  }

  /** Different workchains have different files. */
  lemma WorkchainsHaveTheirOwnFiles<D, R>(lib: Library<D, R>, mc: McState<D, R>, wc1: I32, wc2: I32,
                                          read: Bytes -> Option<ShardState>)
    requires Serializable(lib, mc, wc1) && Serializable(lib, mc, wc2)
    requires DistinctHashes(lib, {Bag(lib, mc, wc1), Bag(lib, mc, wc2)}) && ReadsStates(lib, read)
    ensures FileName(FileHash(lib, mc, wc1)) == FileName(FileHash(lib, mc, wc2)) <==> wc1 == wc2
  {
    FileNameExact(FileHash(lib, mc, wc1), FileHash(lib, mc, wc2));
    hide FileName;
    assert read(Bag(lib, mc, wc1)) == Some(EmptyState(mc, wc1));
    assert read(Bag(lib, mc, wc2)) == Some(EmptyState(mc, wc2));
  }

  // ---- the assumptions can be met ----

  /** A state as 32 bytes. */
  function StateBytes(s: ShardState): (b: Bytes)
    ensures |b| == 32
  {
    Messages.BeI32(s.workchain) + Messages.Be32(s.genTime) + Messages.BeI32(s.globalId) +
    Messages.Be32(s.minRefMcSeqno) + Messages.Be64(0) + Messages.Be64(0)
  }

  function StateOf(b: Bytes): Option<ShardState> {
    if |b| != 32 then None
    else Some(ShardState(Signed32(Messages.Get32(b[0..4])), Messages.Get32(b[4..8]),
                         Signed32(Messages.Get32(b[8..12])), Messages.Get32(b[12..16])))
  }

  lemma Slices(a: Bytes, b: Bytes, c: Bytes, d: Bytes, e: Bytes, f: Bytes)
    requires |a| == |b| == |c| == |d| == 4
    ensures var all := a + b + c + d + e + f;
            |all| >= 16 && all[0..4] == a && all[4..8] == b && all[8..12] == c && all[12..16] == d
  {
  }

  lemma StateRoundTrip(s: ShardState)
    ensures StateOf(StateBytes(s)) == Some(s)
  {
    Messages.Get32Of(Unsigned32(s.workchain));
    Messages.Get32Of(s.genTime);
    Messages.Get32Of(Unsigned32(s.globalId));
    Messages.Get32Of(s.minRefMcSeqno);
    hide Messages.Be32, Messages.Be64, Messages.Get32;
    Slices(Messages.BeI32(s.workchain), Messages.Be32(s.genTime), Messages.BeI32(s.globalId),
           Messages.Be32(s.minRefMcSeqno), Messages.Be64(0), Messages.Be64(0));
  }

  /** A library whose serializer keeps a state in 32 bytes and whose hash of 32 bytes is these bytes:
      for every master state it meets all that is assumed above, and it serializes every workchain. */
  lemma AssumptionsCanBeMet<D, R>(mc: McState<D, R>) returns (lib: Library<D, R>)
    ensures DistinctHashes(lib, WorkchainBags(lib, mc)) && ReadsStates(lib, StateOf)
    ensures forall wc: I32 :: Serializable(lib, mc, wc)
    ensures mc.extra.Some? ==> Importable(lib, mc)
  {
    lib := Library(
      s => Some(Cell(StateBytes(s), [])), m => None, c => ZERO_KEY, (c: Cell) => Some(c.data),
      b => if |b| == 32 then b else ZERO_KEY, (e, t) => Some(0), b => None, n => true);
    forall s: ShardState ensures StateOf(StateBytes(s)) == Some(s) {
      StateRoundTrip(s);
    }
    hide StateBytes, StateOf, Rewritten, FileName;
    forall b | b in WorkchainBags(lib, mc) ensures |b| == 32 {
      var wc :| wc in mc.extra.value.workchains.Keys && Serializable(lib, mc, wc) && Bag(lib, mc, wc) == b;
      assert b == StateBytes(EmptyState(mc, wc));
    }
  }

  /** `config.json` names the master state the same way: its file hash decodes to the name of a file
      that reads back as the master state, and its root hash to the hash of that state's cell. */
  lemma ConfigNamesTheMasterState<D, R>(lib: Library<D, R>, mc: McState<D, R>, json: ConfigJson,
                                        files: map<string, Bytes>)
    requires MasterWritten(lib, mc, files, json)
    requires forall m: McState<D, R> {:trigger lib.serializeMc(m)} :: Sealed(lib, lib.serializeMc(m)) ==>
               lib.readMc(BagOf(lib, lib.serializeMc(m))) == Some(m)
    ensures var h := Base64.Decode(json.fileHash);
            && h.Some? && |h.value| == 32
            && Hex.Lower(h.value) + ".boc" in files
            && lib.readMc(files[Hex.Lower(h.value) + ".boc"]) == Some(mc)
    ensures Base64.Decode(json.rootHash) == Some(lib.reprHash(lib.serializeMc(mc).value))
    ensures json.workchain == -1 && json.shard == -0x8000_0000_0000_0000 && json.seqno == 0
  {
    var hash := lib.fileHash(BagOf(lib, lib.serializeMc(mc)));
    FileNameExact(hash, hash);
    hide FileName;
    Base64.RoundTrip(lib.fileHash(BagOf(lib, lib.serializeMc(mc))));
    Base64.RoundTrip(lib.reprHash(lib.serializeMc(mc).value));
  }
}
