/** The log dictionary (write_logs_dictionary): for every module with a
    .static_log_entries section, a logs header carrying the firmware version
    of the latest .fw_ready section seen so far, then the section's bytes. */
module LogsDictionary {
  import opened Bytes
  import opened Results
  import opened FileFormat
  import opened ElfInput
  import opened Stream

  /** The sof_ipc_fw_version record inside a sof_ipc_fw_ready message. */
  function VersionOf(ready: seq<byte>): (v: seq<byte>)
    requires |ready| == FW_READY_SIZE
    ensures |v| == FW_VERSION_SIZE
    ensures forall k :: 0 <= k < FW_VERSION_SIZE ==> v[k] == ready[FW_VERSION_OFFSET + k]
  {
    ready[FW_VERSION_OFFSET..FW_VERSION_OFFSET + FW_VERSION_SIZE]
  }

  /** The section indices the ELF reader recorded name sections of the
      module (0 standing for "none"). */
  predicate IndicesInRange(mod: Module) {
    mod.fwReadyIndex < |mod.sections| && mod.logsIndex < |mod.sections|
  }

  /** The fw_ready message at the start of the module's .fw_ready section. */
  function ReadyMessage(mod: Module): Option<seq<byte>>
    requires IndicesInRange(mod)
  {
    ReadAt(mod.file, mod.sections[mod.fwReadyIndex].off, FW_READY_SIZE)
  }

  /** The bytes of the module's log entries section. */
  function LogsPayload(mod: Module): Option<seq<byte>>
    requires IndicesInRange(mod)
  {
    var s := mod.sections[mod.logsIndex];
    ReadAt(mod.file, s.off, s.size)
  }

  /** What one iteration of the loop leaves behind: the version now in the
      header, and the bytes it adds to the dictionary. */
  datatype Entry = Entry(version: seq<byte>, bytes: seq<byte>)

  /** The header of a module's log entries: the section's address and size,
      the payload right after the header, and `version`. */
  function RecordHeader(mod: Module, version: seq<byte>): LogsHeader
    requires IndicesInRange(mod)
  {
    var s := mod.sections[mod.logsIndex];
    LogsHeader(s.vaddr, s.size, LOGS_HDR_SIZE, version)
  }

  /** One iteration for module `mod` with `version` in the header: a module
      with a .fw_ready section replaces the version, a module with a log
      entries section adds its header and payload. A read that comes up short
      is an error. */
  function LogsEntry(mod: Module, version: seq<byte>): (r: Result<Entry>)
    requires IndicesInRange(mod) && |version| == FW_VERSION_SIZE
    ensures r.Ok? ==> |r.value.version| == FW_VERSION_SIZE
    ensures r.Err? ==> r.error == ReadFailed
  {
    var v := NextVersion(mod, version);
    if v.None? then Err(ReadFailed)
    else if mod.logsIndex == 0 then Ok(Entry(v.value, []))
    else
      match LogsPayload(mod)
      case None => Err(ReadFailed)
      case Some(payload) => Ok(Entry(v.value, EncodeLogsHeader(RecordHeader(mod, v.value)) + payload))
  }

  /** The version in the header after a module: the one of its .fw_ready
      section when it has one (None when that read fails), else `version`. */
  function NextVersion(mod: Module, version: seq<byte>): (v: Option<seq<byte>>)
    requires IndicesInRange(mod) && |version| == FW_VERSION_SIZE
    ensures v.None? <==> mod.fwReadyIndex > 0 && ReadyMessage(mod).None?
    ensures v.Some? ==> |v.value| == FW_VERSION_SIZE
  {
    if mod.fwReadyIndex == 0 then Some(version)
    else
      match ReadyMessage(mod)
      case None => None
      case Some(ready) => Some(VersionOf(ready))
  }

  // ---------------------------------------------------------------------
  // The loop of write_logs_dictionary step by step, on the dictionary file

  /** The log entries of one module: the header write is not checked, then
      the payload is read and written. */
  function RecordSpec(mod: Module, version: seq<byte>, st: StreamState): (r: Step<()>)
    requires IndicesInRange(mod) && mod.logsIndex > 0 && |version| == FW_VERSION_SIZE && Valid(st)
    ensures Valid(r.st) && r.st.capacity == st.capacity
  {
    var st1 := Put(st, EncodeLogsHeader(RecordHeader(mod, version)));
    match LogsPayload(mod)
    case None => Step(st1, Err(ReadFailed))
    case Some(payload) =>
      if Fits(st1, |payload|) then Step(Put(st1, payload), Ok(())) else Step(st1, Err(WriteFailed))
  }

  /** One iteration for module `mod`: returns the version now in the header. */
  function EntrySpec(mod: Module, version: seq<byte>, st: StreamState): (r: Step<seq<byte>>)
    requires IndicesInRange(mod) && |version| == FW_VERSION_SIZE && Valid(st)
    ensures Valid(r.st) && r.st.capacity == st.capacity
    ensures r.res.Ok? ==> |r.res.value| == FW_VERSION_SIZE
  {
    var v := NextVersion(mod, version);
    if v.None? then Step(st, Err(ReadFailed))
    else if mod.logsIndex == 0 then Step(st, Ok(v.value))
    else
      var w := RecordSpec(mod, v.value, st);
      if w.res.Err? then Step(w.st, Err(w.res.error)) else Step(w.st, Ok(v.value))
  }

  /** The loop from module `i` on, with `version` in the header; the first
      failing module ends it. */
  function DictionarySpec(mods: seq<Module>, i: nat, version: seq<byte>, st: StreamState): (r: Step<()>)
    requires AllInRange(mods) && i <= |mods| && |version| == FW_VERSION_SIZE && Valid(st)
    ensures Valid(r.st) && r.st.capacity == st.capacity
    decreases |mods| - i
  {
    if i == |mods| then Step(st, Ok(()))
    else
      var e := EntrySpec(mods[i], version, st);
      if e.res.Err? then Step(e.st, Err(e.res.error)) else DictionarySpec(mods, i + 1, e.res.value, e.st)
  }

  /** One turn of the dictionary loop: an entry that fails ends it with its
      error; otherwise it goes on with the next module and the version the
      entry left. */
  lemma {:induction false} DictionaryTurn(mods: seq<Module>, i: nat, version: seq<byte>, st: StreamState,
                                          after: StreamState, res: Result<seq<byte>>)
    requires AllInRange(mods) && i < |mods| && |version| == FW_VERSION_SIZE && Valid(st)
    requires Step(after, res) == EntrySpec(mods[i], version, st)
    ensures res.Err? ==> DictionarySpec(mods, i, version, st) == Step(after, Err(res.error))
    ensures res.Ok? ==> |res.value| == FW_VERSION_SIZE && Valid(after)
                        && DictionarySpec(mods, i, version, st) == DictionarySpec(mods, i + 1, res.value, after)
  {
  }

  predicate AllInRange(mods: seq<Module>) {
    forall i :: 0 <= i < |mods| ==> IndicesInRange(mods[i])
  }

  /** The whole dictionary for `mods`, starting with `init` as the header's
      version, with the version left at the end; the first short read makes
      it an error. */
  function LogsImage(mods: seq<Module>, init: seq<byte>): (r: Result<Entry>)
    requires AllInRange(mods) && |init| == FW_VERSION_SIZE
    ensures r.Ok? ==> |r.value.version| == FW_VERSION_SIZE
    ensures r.Err? ==> r.error == ReadFailed
  {
    if |mods| == 0 then Ok(Entry(init, []))
    else
      match LogsImage(mods[..|mods| - 1], init)
      case Err(e) => Err(e)
      case Ok(e) =>
        match LogsEntry(mods[|mods| - 1], e.version)
        case Err(e2) => Err(e2)
        case Ok(e2) => Ok(Entry(e2.version, e.bytes + e2.bytes))
  }

  /** Every read the loop makes succeeds. */
  predicate Readable(mod: Module)
    requires IndicesInRange(mod)
  {
    && (mod.fwReadyIndex > 0 ==> ReadyMessage(mod).Some?)
    && (mod.logsIndex > 0 ==> LogsPayload(mod).Some?)
  }

  /** One iteration fails exactly when one of its reads fails, and keeps the
      version unless the module has a .fw_ready section. */
  lemma LogsEntryOutcome(mod: Module, version: seq<byte>)
    requires IndicesInRange(mod) && |version| == FW_VERSION_SIZE
    ensures LogsEntry(mod, version).Ok? <==> Readable(mod)
    ensures LogsEntry(mod, version).Ok? ==>
              LogsEntry(mod, version).value.version
                == (if mod.fwReadyIndex > 0 then VersionOf(ReadyMessage(mod).value) else version)
  {
  }

  /** One iteration fails exactly when one of its reads fails; it keeps the
      version unless the module has a .fw_ready section, and adds a record
      exactly when the module has log entries: the header, decoding to the
      section's address and size, a data offset just past the header and the
      current version, followed by the section's bytes. */
  lemma LogsEntryLayout(mod: Module, version: seq<byte>)
    requires IndicesInRange(mod) && |version| == FW_VERSION_SIZE
    ensures LogsEntry(mod, version).Ok? <==> Readable(mod)
    ensures var r := LogsEntry(mod, version);
            r.Ok? ==>
              && r.value.version == (if mod.fwReadyIndex > 0 then VersionOf(ReadyMessage(mod).value) else version)
              && (mod.logsIndex == 0 ==> r.value.bytes == [])
              && (mod.logsIndex > 0 ==>
                    var s := mod.sections[mod.logsIndex];
                    && |r.value.bytes| == LOGS_HDR_SIZE + s.size
                    && DecodeLogsHeader(r.value.bytes[..LOGS_HDR_SIZE])
                         == Some(LogsHeader(s.vaddr, s.size, LOGS_HDR_SIZE, r.value.version))
                    && r.value.bytes[LOGS_HDR_SIZE..] == Contents(mod.file, s.off, s.size))
  {
    var r := LogsEntry(mod, version);
    if r.Ok? && mod.logsIndex > 0 {
      var h := RecordHeader(mod, r.value.version);
      LogsHeaderRoundTrip(h);
      assert r.value.bytes[..LOGS_HDR_SIZE] == EncodeLogsHeader(h);
    }
  }

  /** Every read the loop makes, for every module, succeeds. */
  predicate AllReadable(mods: seq<Module>)
    requires AllInRange(mods)
  {
    forall i :: 0 <= i < |mods| ==> Readable(mods[i])
  }

  lemma AllReadableSnoc(mods: seq<Module>)
    requires AllInRange(mods) && |mods| > 0
    ensures AllInRange(mods[..|mods| - 1])
    ensures AllReadable(mods) <==> AllReadable(mods[..|mods| - 1]) && Readable(mods[|mods| - 1])
  {
    var n := |mods| - 1;
    assert forall i :: 0 <= i < n ==> mods[..n][i] == mods[i];
  }

  /** The dictionary can be produced exactly when every module's reads
      succeed. */
  lemma {:induction false} LogsImageOkIffReadable(mods: seq<Module>, init: seq<byte>)
    requires AllInRange(mods) && |init| == FW_VERSION_SIZE
    ensures LogsImage(mods, init).Ok? <==> AllReadable(mods)
  {
    if |mods| > 0 {
      var n := |mods| - 1;
      AllReadableSnoc(mods);
      LogsImageOkIffReadable(mods[..n], init);
      var prev := LogsImage(mods[..n], init);
      if prev.Ok? {
        LogsEntryOutcome(mods[n], prev.value.version);
      }
    }
  }

  /** The version in the header after the loop is the one of the last module
      with a .fw_ready section. */
  lemma {:induction false} VersionFromLatestFwReady(mods: seq<Module>, init: seq<byte>, j: nat)
    requires AllInRange(mods) && |init| == FW_VERSION_SIZE && LogsImage(mods, init).Ok?
    requires j < |mods| && mods[j].fwReadyIndex > 0
    requires forall k :: j < k < |mods| ==> mods[k].fwReadyIndex == 0
    ensures ReadyMessage(mods[j]).Some?
    ensures LogsImage(mods, init).value.version == VersionOf(ReadyMessage(mods[j]).value)
  {
    var n := |mods| - 1;
    var prefix := mods[..n];
    assert AllInRange(prefix);
    var prev := LogsImage(prefix, init);
    assert prev.Ok?;
    LogsEntryOutcome(mods[n], prev.value.version);
    if j < n {
      assert prefix[j] == mods[j];
      assert forall k :: j < k < n ==> prefix[k] == mods[k];
      VersionFromLatestFwReady(prefix, init, j);
    }
  }

  /** Before the first module with a .fw_ready section the header still holds
      its initial contents: in the source that is uninitialised stack memory. */
  lemma {:induction false} VersionBeforeAnyFwReady(mods: seq<Module>, init: seq<byte>)
    requires AllInRange(mods) && |init| == FW_VERSION_SIZE && LogsImage(mods, init).Ok?
    requires forall k :: 0 <= k < |mods| ==> mods[k].fwReadyIndex == 0
    ensures LogsImage(mods, init).value.version == init
  {
    if |mods| > 0 {
      var n := |mods| - 1;
      assert forall k :: 0 <= k < n ==> mods[..n][k] == mods[k];
      VersionBeforeAnyFwReady(mods[..n], init);
      LogsEntryOutcome(mods[n], LogsImage(mods[..n], init).value.version);
    }
  }

  /** Once a module's reads fail, the dictionary fails. */
  lemma {:induction false} LogsImageKeepsError(mods: seq<Module>, init: seq<byte>, k: nat)
    requires AllInRange(mods) && |init| == FW_VERSION_SIZE && k <= |mods|
    requires LogsImage(mods[..k], init).Err?
    ensures LogsImage(mods, init).Err?
    decreases |mods|
  {
    if k < |mods| {
      var n := |mods| - 1;
      assert mods[..n][..k] == mods[..k];
      LogsImageKeepsError(mods[..n], init, k);
    } else {
      assert mods[..k] == mods;
    }
  }

  /** A dictionary holds the dictionary of each prefix of the modules. */
  lemma {:induction false} LogsImagePrefix(mods: seq<Module>, init: seq<byte>, k: nat)
    requires AllInRange(mods) && |init| == FW_VERSION_SIZE && k <= |mods|
    requires LogsImage(mods, init).Ok?
    ensures LogsImage(mods[..k], init).Ok?
    ensures |LogsImage(mods[..k], init).value.bytes| <= |LogsImage(mods, init).value.bytes|
    decreases |mods|
  {
    if k < |mods| {
      var n := |mods| - 1;
      assert mods[..n][..k] == mods[..k];
      LogsImagePrefix(mods[..n], init, k);
    } else {
      assert mods[..k] == mods;
    }
  }

  lemma AllInRangePrefix(mods: seq<Module>, k: nat)
    requires AllInRange(mods) && k <= |mods|
    ensures AllInRange(mods[..k])
  {
    assert forall i :: 0 <= i < k ==> mods[..k][i] == mods[i];
  }

  /** The dictionary of the first i + 1 modules is the one of the first i
      modules followed by module i's entry. */
  lemma LogsImageStep(mods: seq<Module>, init: seq<byte>, i: nat)
    requires AllInRange(mods) && |init| == FW_VERSION_SIZE && i < |mods|
    ensures AllInRange(mods[..i]) && AllInRange(mods[..i + 1])
    ensures LogsImage(mods[..i], init).Ok? ==>
              var prev := LogsImage(mods[..i], init).value;
              var e := LogsEntry(mods[i], prev.version);
              LogsImage(mods[..i + 1], init)
                == if e.Ok? then Ok(Entry(e.value.version, prev.bytes + e.value.bytes)) else Err(e.error)
  {
    AllInRangePrefix(mods, i);
    AllInRangePrefix(mods, i + 1);
    assert mods[..i + 1][..i] == mods[..i];
  }

  /** Once the dictionary of a prefix of the modules is longer than `room`,
      the whole dictionary fails or is longer still. */
  lemma LongerThanRoom(mods: seq<Module>, init: seq<byte>, k: nat, room: int)
    requires AllInRange(mods) && |init| == FW_VERSION_SIZE && k <= |mods|
    requires AllInRange(mods[..k]) && LogsImage(mods[..k], init).Ok?
    requires |LogsImage(mods[..k], init).value.bytes| > room
    ensures LogsImage(mods, init).Err? || |LogsImage(mods, init).value.bytes| > room
  {
    if LogsImage(mods, init).Ok? {
      LogsImagePrefix(mods, init, k);
    }
  }

  /** What write_logs_dictionary leaves behind in a file that held `d0` and
      has room for `capacity` bytes, for the dictionary `img` and the outcome
      `r`: success only when the dictionary can be produced; the file gains
      exactly the dictionary when it fits; a failed read only when the
      dictionary is an error, and a failed write only when it is an error or
      does not fit. */
  predicate DictionaryOutcome(d0: seq<byte>, data: seq<byte>, capacity: nat, img: Result<Entry>, r: Result<()>) {
    && (r.Ok? ==> img.Ok?)
    && (img.Ok? && |d0| + |img.value.bytes| <= capacity ==> r.Ok? && data == d0 + img.value.bytes)
    && (r.Err? ==> || (r.error == ReadFailed && img.Err?)
                   || (r.error == WriteFailed && (img.Err? || |d0| + |img.value.bytes| > capacity)))
  }
}
