/** `meemee/key_rotation.py`: re-encrypting the vault and the webhook secrets with a marker file, verified backups and
    one transaction per database, when a crash or an exception can strike at every step. Encryption is ideal: a sealed
    secret opens under its own key and context only. No other process writes. */
module KeyRotation {
  import opened Text

  type Key = int

  datatype Secret = Sealed(key: Key, plain: Str, context: Str) | Plain(text: Str)

  /** A secret table: primary key to secret. */
  type Table = map<Str, Secret>

  datatype File = Vault | Hooks

  /** The data directory; a missing database is None. */
  datatype Disk = Disk(vault: Option<Table>, hooks: Option<Table>, marker: bool)

  function Context(file: File, name: Str): Str {
    if file == Vault then name else Codes("webhook-subscription:") + name
  }

  function Decrypt(key: Key, s: Secret, context: Str): Option<Str> {
    if s.Sealed? && s.key == key && s.context == context then Some(s.plain) else None
  }

  predicate Opens(key: Key, file: File, t: Table) {
    forall n | n in t :: Decrypt(key, t[n], Context(file, n)).Some?
  }

  function OpenAll(key: Key, file: File, t: Table): (r: map<Str, Str>)
    requires Opens(key, file, t)
  {
    map n | n in t :: Decrypt(key, t[n], Context(file, n)).value
  }

  function SealAll(key: Key, file: File, plain: map<Str, Str>): Table {
    map n | n in plain :: Sealed(key, plain[n], Context(file, n))
  }

  /** A missing file opens under every key. */
  predicate OpensFile(key: Key, file: File, t: Option<Table>) {
    t.None? || Opens(key, file, t.value)
  }

  function RotateFile(oldKey: Key, newKey: Key, file: File, t: Option<Table>): Option<Table>
    requires OpensFile(oldKey, file, t)
  {
    if t.None? then None else Some(SealAll(newKey, file, OpenAll(oldKey, file, t.value)))
  }

  /** Every secret of the installation is sealed under one key. */
  predicate Uniform(key: Key, d: Disk) {
    OpensFile(key, Vault, d.vault) && OpensFile(key, Hooks, d.hooks)
  }

  function Rotated(oldKey: Key, newKey: Key, d: Disk): Disk
    requires Uniform(oldKey, d)
  {
    Disk(RotateFile(oldKey, newKey, Vault, d.vault), RotateFile(oldKey, newKey, Hooks, d.hooks), false)
  }

  // ----- faults -----

  /** The points at which a rotation can be struck. */
  datatype Step =
    | BackupVault | BackupHooks | OpenMarker | WriteMarker | ConnectVault | ConnectHooks | ReadVault | ReadHooks
    | Encrypt | UpdateVault | UpdateHooks | CommitHooks | CommitVault | Unlink | Close
    | RestoreVault | RestoreHooks | HandlerUnlink | CleanBackups

  /** An exception or a crash, before or after the step's effect. */
  datatype Fault = Fine | RaiseBefore | RaiseAfter | CrashBefore | CrashAfter {
    predicate Happens() {
      Fine? || RaiseAfter? || CrashAfter?
    }

    predicate Crashes() {
      CrashBefore? || CrashAfter?
    }
  }

  const OPENING := {BackupVault, BackupHooks, OpenMarker}
  const READING := {WriteMarker, ConnectVault, ConnectHooks, ReadVault, ReadHooks, Encrypt}
  const WRITING := {UpdateVault, UpdateHooks, CommitHooks, CommitVault}

  /** Steps on a database are taken only where it exists. */
  predicate Taken(s: Step, d: Disk) {
    && (s in {BackupVault, ConnectVault, ReadVault, UpdateVault, CommitVault} ==> d.vault.Some?)
    && (s in {BackupHooks, ConnectHooks, ReadHooks, UpdateHooks, CommitHooks} ==> d.hooks.Some?)
    && (s == Close ==> d.vault.Some? || d.hooks.Some?)
  }

  /** The fault at a step, if it is taken. */
  function At(faults: Step -> Fault, s: Step, d: Disk): Fault {
    if Taken(s, d) then faults(s) else Fine
  }

  ghost predicate FineAt(steps: set<Step>, faults: Step -> Fault, d: Disk) {
    forall s | s in steps :: At(faults, s, d) == Fine
  }

  /** Nothing strikes before the marker is to be removed. */
  ghost predicate Smooth(faults: Step -> Fault, d: Disk) {
    FineAt(OPENING, faults, d) && FineAt(READING, faults, d) && FineAt(WRITING, faults, d)
  }

  /** Nothing strikes from the removal of the marker on. */
  ghost predicate SmoothEnd(faults: Step -> Fault, d: Disk) {
    faults(Unlink) == At(faults, Close, d) == faults(CleanBackups) == Fine
  }

  /** An exception, and no crash, after the marker is gone. */
  ghost predicate RaisesLate(faults: Step -> Fault, d: Disk) {
    && (At(faults, Close, d) != Fine || faults(CleanBackups) != Fine)
    && !At(faults, Close, d).Crashes() && !faults(CleanBackups).Crashes()
  }

  /** The handler stops, by an exception or a crash, with the vault restored and the webhooks not. */
  ghost predicate HalfRestores(faults: Step -> Fault) {
    || (faults(RestoreVault) == Fine && faults(RestoreHooks) in {RaiseBefore, CrashBefore})
    || faults(RestoreVault) in {RaiseAfter, CrashAfter}
  }

  /** Removing the marker raises after the file is gone, and the handler restores one database only. */
  ghost predicate Splits(faults: Step -> Fault) {
    faults(Unlink) == RaiseAfter && HalfRestores(faults)
  }

  ghost predicate CrashesSomewhere(faults: Step -> Fault) {
    exists s :: faults(s).Crashes()
  }

  ghost predicate RaisesIn(steps: set<Step>, faults: Step -> Fault) {
    exists s | s in steps :: faults(s) == RaiseBefore || faults(s) == RaiseAfter
  }

  datatype Outcome =
    | Returned(vaultSecrets: nat, hookSecrets: nat)
    | Refused  // raised before the marker was published
    | Handled  // raised, after the handler restored everything
    | Stuck  // raised, with the handler itself interrupted by an exception
    | LateFailure  // raised after the rotation was complete
    | Crashed

  // ----- decoding and updating, row by row -----

  /** The decoding loop stops at the first secret that does not open. */
  method DecodeAll(key: Key, file: File, t: Table) returns (decoded: Option<map<Str, Str>>)
    ensures decoded.Some? <==> Opens(key, file, t)
    ensures decoded.Some? ==> decoded.value == OpenAll(key, file, t)
  {
    var done: map<Str, Str> := map[];
    var rest := t.Keys;
    while rest != {}
      invariant rest <= t.Keys && done.Keys == t.Keys - rest
      invariant forall n | n in done :: Decrypt(key, t[n], Context(file, n)) == Some(done[n])
      decreases |rest|
    {
      var name :| name in rest;
      var plain := Decrypt(key, t[name], Context(file, name));
      if plain.None? {
        return None;
      }
      done := done[name := plain.value];
      rest := rest - {name};
    }
    decoded := Some(done);
  }

  /** `executemany`: one update of the open transaction for each re-encrypted row. */
  method UpdateRows(t: Table, updates: Table) returns (updated: Table)
    requires updates.Keys == t.Keys
    ensures updated == updates
  {
    updated := t;
    var rest := updates.Keys;
    while rest != {}
      invariant rest <= updates.Keys && updated.Keys == t.Keys
      invariant forall n | n in updates && n !in rest :: updated[n] == updates[n]
      decreases |rest|
    {
      var name :| name in rest;
      updated := updated[name := updates[name]];
      rest := rest - {name};
    }
  }

  // ----- the protected region -----

  datatype Exit = Done | Threw | Died

  /** Where an exception or a crash leaves the region. */
  function ExitOf(f: Fault): Exit {
    if f == Fine then Done else if f.Crashes() then Died else Threw
  }

  datatype Progress = Progress(disk: Disk, mutated: bool, exit: Exit, vaultSecrets: nat, hookSecrets: nat)

  /** Each file is as before or rotated as a whole. */
  ghost predicate FileByFile(oldKey: Key, newKey: Key, d: Disk, now: Disk) {
    && (now.vault != d.vault || now.hooks != d.hooks ==> Uniform(oldKey, d))
    && (now.vault == d.vault || now.vault == RotateFile(oldKey, newKey, Vault, d.vault))
    && (now.hooks == d.hooks || now.hooks == RotateFile(oldKey, newKey, Hooks, d.hooks))
  }

  /** What the protected region can leave behind; an exit by an exception is picked up by the handler. */
  ghost predicate Leaves(oldKey: Key, newKey: Key, d: Disk, p: Progress) {
    && FileByFile(oldKey, newKey, d, p.disk)
    && (!p.mutated ==> p.disk == d)
    && (p.exit == Done || !p.disk.marker ==> Uniform(oldKey, d) && p.disk == Rotated(oldKey, newKey, d))
  }

  /** The updates for a file: nothing where there is no file. */
  ghost predicate UpdatesFor(oldKey: Key, newKey: Key, file: File, t: Option<Table>, updates: Table) {
    && OpensFile(oldKey, file, t)
    && RotateFile(oldKey, newKey, file, t) == (if t.Some? then Some(updates) else None)
    && (t.None? ==> updates == map[])
  }

  /** Reading, decoding and re-encrypting everything in memory: no secret that fails to open gets past this. */
  method Prepare(d: Disk, oldKey: Key, newKey: Key, faults: Step -> Fault)
    returns (exit: Exit, vaultUpdates: Table, hookUpdates: Table)
    ensures exit == Done ==>
      && UpdatesFor(oldKey, newKey, Vault, d.vault, vaultUpdates)
      && UpdatesFor(oldKey, newKey, Hooks, d.hooks, hookUpdates)
    ensures exit == Done <==> Uniform(oldKey, d) && FineAt(READING, faults, d)
    ensures exit == Died ==> CrashesSomewhere(faults)
  {
    exit, vaultUpdates, hookUpdates := Threw, map[], map[];
    var reading := [WriteMarker, ConnectVault, ConnectHooks, ReadVault, ReadHooks];
    if FirstFault(reading, faults, d) != Fine {
      assert !FineAt(READING, faults, d);
      return ExitOf(FirstFault(reading, faults, d)), map[], map[];
    }
    assert forall i | 0 <= i < |reading| :: At(faults, reading[i], d) == Fine;
    assert FineAt(READING, faults, d) <==> faults(Encrypt) == Fine by {
      assert reading[0] == WriteMarker && reading[1] == ConnectVault && reading[2] == ConnectHooks;
      assert reading[3] == ReadVault && reading[4] == ReadHooks;
    }
    var decodedVault := DecodeAll(oldKey, Vault, if d.vault.Some? then d.vault.value else map[]);
    if decodedVault.None? {
      return;
    }
    var decodedHooks := DecodeAll(oldKey, Hooks, if d.hooks.Some? then d.hooks.value else map[]);
    if decodedHooks.None? {
      return;
    }
    vaultUpdates := SealAll(newKey, Vault, decodedVault.value);
    hookUpdates := SealAll(newKey, Hooks, decodedHooks.value);
    exit := ExitOf(faults(Encrypt));
  }

  /** Both transactions, the two commits (webhooks first) and the removal of the marker. */
  method Write(d: Disk, vaultUpdates: Table, hookUpdates: Table, faults: Step -> Fault)
    returns (disk: Disk, exit: Exit)
    requires d.marker
    requires d.vault.Some? ==> vaultUpdates.Keys == d.vault.value.Keys
    requires d.hooks.Some? ==> hookUpdates.Keys == d.hooks.value.Keys
    ensures disk.vault == d.vault || (d.vault.Some? && disk.vault == Some(vaultUpdates))
    ensures disk.hooks == d.hooks || (d.hooks.Some? && disk.hooks == Some(hookUpdates))
    ensures exit == Done || !disk.marker ==>
      && disk.vault == (if d.vault.Some? then Some(vaultUpdates) else None)
      && disk.hooks == (if d.hooks.Some? then Some(hookUpdates) else None)
      && !disk.marker
    ensures exit == Threw && !disk.marker ==> faults(Unlink) == RaiseAfter
    ensures !disk.marker <==> FineAt(WRITING, faults, d) && faults(Unlink).Happens()
    ensures FineAt(WRITING, faults, d) ==> exit == ExitOf(faults(Unlink))
    ensures exit == Died ==> CrashesSomewhere(faults)
  {
    disk := d;
    // Uncommitted rows live in the transactions and vanish with them.
    var vaultTransaction, hookTransaction := map[], map[];
    if d.vault.Some? {
      vaultTransaction := UpdateRows(d.vault.value, vaultUpdates);
      if faults(UpdateVault) != Fine {
        return disk, ExitOf(faults(UpdateVault));
      }
    }
    if d.hooks.Some? {
      hookTransaction := UpdateRows(d.hooks.value, hookUpdates);
      if faults(UpdateHooks) != Fine {
        return disk, ExitOf(faults(UpdateHooks));
      }
    }
    if d.hooks.Some? {
      if faults(CommitHooks).Happens() {
        disk := disk.(hooks := Some(hookTransaction));
      }
      if faults(CommitHooks) != Fine {
        return disk, ExitOf(faults(CommitHooks));
      }
    }
    if d.vault.Some? {
      if faults(CommitVault).Happens() {
        disk := disk.(vault := Some(vaultTransaction));
      }
      if faults(CommitVault) != Fine {
        return disk, ExitOf(faults(CommitVault));
      }
    }
    if faults(Unlink).Happens() {
      disk := disk.(marker := false);
    }
    exit := ExitOf(faults(Unlink));
  }

  /** Nothing stops the protected region before the marker is to be removed. */
  ghost predicate Reaches(oldKey: Key, faults: Step -> Fault, d: Disk) {
    Uniform(oldKey, d) && FineAt(READING, faults, d) && FineAt(WRITING, faults, d)
  }

  /** The statements under `try`, from writing the marker's text to removing it; the marker is there on entry. */
  method Attempt(d: Disk, oldKey: Key, newKey: Key, faults: Step -> Fault) returns (p: Progress)
    requires d.marker
    ensures Leaves(oldKey, newKey, d, p)
    ensures p.exit == Threw && !p.disk.marker ==> faults(Unlink) == RaiseAfter
    ensures p.exit == Done ==>
      && p.vaultSecrets == (if d.vault.Some? then |d.vault.value| else 0)
      && p.hookSecrets == (if d.hooks.Some? then |d.hooks.value| else 0)
    ensures !p.disk.marker <==> Reaches(oldKey, faults, d) && faults(Unlink).Happens()
    ensures Reaches(oldKey, faults, d) ==> p.mutated && p.exit == ExitOf(faults(Unlink))
    ensures p.exit == Died ==> CrashesSomewhere(faults)
  {
    var exit, vaultUpdates, hookUpdates := Prepare(d, oldKey, newKey, faults);
    if exit != Done {
      return Progress(d, false, exit, 0, 0);
    }
    SameKeys(oldKey, newKey, Vault, d.vault, vaultUpdates);
    SameKeys(oldKey, newKey, Hooks, d.hooks, hookUpdates);
    var disk, written := Write(d, vaultUpdates, hookUpdates, faults);
    p := Progress(disk, true, written, |vaultUpdates|, |hookUpdates|);
    WrittenLeaves(oldKey, newKey, d, p, vaultUpdates, hookUpdates);
  }

  lemma WrittenLeaves(oldKey: Key, newKey: Key, d: Disk, p: Progress, vaultUpdates: Table, hookUpdates: Table)
    requires UpdatesFor(oldKey, newKey, Vault, d.vault, vaultUpdates)
    requires UpdatesFor(oldKey, newKey, Hooks, d.hooks, hookUpdates)
    requires p.mutated
    requires p.disk.vault == d.vault || (d.vault.Some? && p.disk.vault == Some(vaultUpdates))
    requires p.disk.hooks == d.hooks || (d.hooks.Some? && p.disk.hooks == Some(hookUpdates))
    requires p.exit == Done || !p.disk.marker ==>
      && p.disk.vault == (if d.vault.Some? then Some(vaultUpdates) else None)
      && p.disk.hooks == (if d.hooks.Some? then Some(hookUpdates) else None)
      && !p.disk.marker
    ensures Leaves(oldKey, newKey, d, p)
  {
  }

  lemma SameKeys(oldKey: Key, newKey: Key, file: File, t: Option<Table>, updates: Table)
    requires UpdatesFor(oldKey, newKey, file, t, updates)
    ensures t.Some? ==> updates.Keys == t.value.Keys && |updates| == |t.value|
  {
    if t.Some? {
      assert updates.Keys == t.value.Keys;
      SameSize(t, updates);
    }
  }

  lemma SameSize(t: Option<Table>, updates: Table)
    requires t.Some? ==> updates.Keys == t.value.Keys
    ensures t.Some? ==> |updates| == |t.value|
  {
    if t.Some? {
      assert |updates.Keys| == |t.value.Keys|;
    }
  }

  /** The first fault of steps that change nothing on disk. */
  function FirstFault(steps: seq<Step>, faults: Step -> Fault, d: Disk): (f: Fault)
    ensures f == Fine <==> forall i | 0 <= i < |steps| :: At(faults, steps[i], d) == Fine
    ensures f != Fine ==> exists s :: s in steps && faults(s) == f
  {
    if steps == [] then Fine
    else if At(faults, steps[0], d) != Fine then At(faults, steps[0], d)
    else FirstFault(steps[1..], faults, d)
  }

  // ----- the whole rotation -----

  /** Restores one database from its backup, atomically. */
  function Restored(d: Disk, backup: Disk, file: File): Disk {
    if file == Vault then d.(vault := backup.vault) else d.(hooks := backup.hooks)
  }

  /** What the handler may leave of the files, and where it stops between them. */
  ghost predicate Recovery(
    now: Disk, backup: Disk, mutated: bool, faults: Step -> Fault, after: Disk, outcome: Outcome)
  {
    && after.vault in {now.vault, backup.vault} && after.hooks in {now.hooks, backup.hooks}
    && outcome in {Handled, Stuck, Crashed}
    && (!mutated ==> after.vault == now.vault && after.hooks == now.hooks)
    && (mutated && (outcome == Handled || (now.marker && !after.marker)) ==>
          after.vault == backup.vault && after.hooks == backup.hooks)
    && (outcome == Handled ==> !after.marker)
    && (after.marker ==> now.marker)
    && (mutated && now.vault.Some? && now.hooks.Some? && HalfRestores(faults) ==> after == now.(vault := backup.vault))
    && (mutated && !HalfRestores(faults) ==>
          || (after.vault == now.vault && after.hooks == now.hooks)
          || (after.vault == backup.vault && after.hooks == backup.hooks))
  }

  /** The handler: open transactions are gone; restore the backups if anything may have changed, then drop the marker. */
  method Recover(now: Disk, backup: Disk, mutated: bool, faults: Step -> Fault) returns (after: Disk, outcome: Outcome)
    requires (now.vault.Some? <==> backup.vault.Some?) && (now.hooks.Some? <==> backup.hooks.Some?)
    ensures Recovery(now, backup, mutated, faults, after, outcome)
    ensures outcome.Crashed? ==> CrashesSomewhere(faults)
    ensures outcome.Stuck? ==> RaisesIn({RestoreVault, RestoreHooks, HandlerUnlink}, faults)
  {
    after := now;
    if mutated {
      if backup.vault.Some? {
        if faults(RestoreVault).Happens() {
          after := Restored(after, backup, Vault);
        }
        if faults(RestoreVault) != Fine {
          return after, if faults(RestoreVault).Crashes() then Crashed else Stuck;
        }
      }
      if backup.hooks.Some? {
        if faults(RestoreHooks).Happens() {
          after := Restored(after, backup, Hooks);
        }
        if faults(RestoreHooks) != Fine {
          return after, if faults(RestoreHooks).Crashes() then Crashed else Stuck;
        }
      }
    }
    if faults(HandlerUnlink).Happens() {
      after := after.(marker := false);
    }
    outcome := if faults(HandlerUnlink) == Fine then Handled
               else if faults(HandlerUnlink).Crashes() then Crashed else Stuck;
  }

  /** All or nothing: without a marker the secrets are as before, or every one of them is sealed under the new key. */
  ghost predicate AllOrNothing(oldKey: Key, newKey: Key, d: Disk, after: Disk) {
    !after.marker ==> after == d || (Uniform(oldKey, d) && after == Rotated(oldKey, newKey, d))
  }

  /** Both databases are there and a rotation changes both. */
  ghost predicate ChangesBoth(oldKey: Key, newKey: Key, d: Disk)
    requires Uniform(oldKey, d)
  {
    var rotated := Rotated(oldKey, newKey, d);
    rotated.vault != d.vault && rotated.hooks != d.hooks
  }

  /** Nothing stands in the way of a rotation. */
  predicate Startable(oldKey: Option<Key>, newKey: Option<Key>, d: Disk) {
    oldKey.Some? && newKey.Some? && !d.marker && Uniform(oldKey.value, d)
  }

  /** The rotation gets as far as removing the marker, its faults split the handler there, and that shows. */
  ghost predicate Torn(oldKey: Option<Key>, newKey: Option<Key>, faults: Step -> Fault, d: Disk) {
    && Startable(oldKey, newKey, d) && ChangesBoth(oldKey.value, newKey.value, d)
    && Smooth(faults, d) && Splits(faults)
  }

  /** What one rotation may do to an installation. */
  ghost predicate Permitted(
    oldKey: Option<Key>, newKey: Option<Key>, faults: Step -> Fault, d: Disk, after: Disk, outcome: Outcome)
  {
    && (d.marker || oldKey.None? || newKey.None? ==> outcome == Refused)
    && (outcome.Refused? || outcome.Handled? ==> after == d)
    && (outcome.Returned? || outcome.LateFailure? ==> !after.marker)
    && (oldKey.Some? && newKey.Some? ==>
          (AllOrNothing(oldKey.value, newKey.value, d, after) <==> !Torn(oldKey, newKey, faults, d)))
    && (Torn(oldKey, newKey, faults, d) ==> after == Rotated(oldKey.value, newKey.value, d).(vault := d.vault))
    && (!outcome.Refused? ==>
          && oldKey.Some? && newKey.Some? && !d.marker
          && FileByFile(oldKey.value, newKey.value, d, after)
          && (outcome.Returned? || outcome.LateFailure? ==>
                Uniform(oldKey.value, d) && after == Rotated(oldKey.value, newKey.value, d)))
  }

  /** What is left of a rotation whose marker was published; `torn` where it was torn, and exactly then. */
  ghost predicate Leftover(oldKey: Key, newKey: Key, torn: bool, d: Disk, after: Disk, outcome: Outcome) {
    && !outcome.Refused?
    && FileByFile(oldKey, newKey, d, after)
    && (outcome.Handled? ==> after == d)
    && (outcome.Returned? || outcome.LateFailure? ==> Uniform(oldKey, d) && after == Rotated(oldKey, newKey, d))
    && (AllOrNothing(oldKey, newKey, d, after) <==> !torn)
    && (torn ==> Uniform(oldKey, d) && after == Rotated(oldKey, newKey, d).(vault := d.vault))
  }

  ghost predicate Tears(oldKey: Key, newKey: Key, faults: Step -> Fault, d: Disk) {
    Reaches(oldKey, faults, d) && Splits(faults) && ChangesBoth(oldKey, newKey, d)
  }

  lemma DeadLeftover(oldKey: Key, newKey: Key, faults: Step -> Fault, d: Disk, p: Progress)
    requires !d.marker && Leaves(oldKey, newKey, d.(marker := true), p) && p.exit == Died
    requires Reaches(oldKey, faults, d) ==> p.exit == ExitOf(faults(Unlink))
    ensures Leftover(oldKey, newKey, Tears(oldKey, newKey, faults, d), d, p.disk, Crashed)
  {
    assert !Tears(oldKey, newKey, faults, d) by {
      assert Splits(faults) ==> ExitOf(faults(Unlink)) == Threw;
    }
  }

  /** What the handler makes of an exception under the marker: the files are whole, and equal their backups if the marker
      goes. */
  lemma MarkedLeftover(
    oldKey: Key, newKey: Key, faults: Step -> Fault, d: Disk, p: Progress, after: Disk, outcome: Outcome)
    requires !d.marker && Leaves(oldKey, newKey, d.(marker := true), p) && p.disk.marker
    requires Recovery(p.disk, d, p.mutated, faults, after, outcome)
    ensures Leftover(oldKey, newKey, false, d, after, outcome)
  {
  }

  /** What it makes of one after the marker was removed: everything is rotated, and restored file by file. */
  lemma UnmarkedLeftover(oldKey: Key, newKey: Key, faults: Step -> Fault, d: Disk, after: Disk, outcome: Outcome)
    requires !d.marker && Uniform(oldKey, d) && Recovery(Rotated(oldKey, newKey, d), d, true, faults, after, outcome)
    ensures Leftover(oldKey, newKey, HalfRestores(faults) && ChangesBoth(oldKey, newKey, d), d, after, outcome)
  {
  }

  lemma HandledLeftover(
    oldKey: Key, newKey: Key, faults: Step -> Fault, d: Disk, p: Progress, after: Disk, outcome: Outcome)
    requires !d.marker && Leaves(oldKey, newKey, d.(marker := true), p)
    requires !p.disk.marker ==> faults(Unlink) == RaiseAfter && p.mutated
    requires !p.disk.marker <==> Reaches(oldKey, faults, d) && faults(Unlink).Happens()
    requires Recovery(p.disk, d, p.mutated, faults, after, outcome)
    ensures Leftover(oldKey, newKey, Tears(oldKey, newKey, faults, d), d, after, outcome)
  {
    if p.disk.marker {
      MarkedLeftover(oldKey, newKey, faults, d, p, after, outcome);
    } else {
      UnmarkedLeftover(oldKey, newKey, faults, d, after, outcome);
    }
  }

  lemma RotatedLeftover(oldKey: Key, newKey: Key, faults: Step -> Fault, d: Disk, outcome: Outcome)
    requires !d.marker && Uniform(oldKey, d) && faults(Unlink) == Fine
    requires outcome.Returned? || outcome.LateFailure? || outcome.Crashed?
    ensures Leftover(oldKey, newKey, Tears(oldKey, newKey, faults, d), d, Rotated(oldKey, newKey, d), outcome)
  {
  }

  /** From the published marker on: the protected region, its handler, and the closing of databases and backups. */
  method Guarded(d: Disk, oldKey: Key, newKey: Key, faults: Step -> Fault) returns (after: Disk, outcome: Outcome)
    requires !d.marker
    ensures Leftover(oldKey, newKey, Tears(oldKey, newKey, faults, d), d, after, outcome)
    ensures outcome.Returned? <==> Reaches(oldKey, faults, d) && SmoothEnd(faults, d)
    ensures outcome.Returned? ==>
      && outcome.vaultSecrets == (if d.vault.Some? then |d.vault.value| else 0)
      && outcome.hookSecrets == (if d.hooks.Some? then |d.hooks.value| else 0)
    ensures outcome.LateFailure? <==>
      Reaches(oldKey, faults, d) && faults(Unlink) == Fine && RaisesLate(faults, d)
    ensures outcome.Crashed? ==> CrashesSomewhere(faults)
    ensures outcome.Stuck? ==> RaisesIn({RestoreVault, RestoreHooks, HandlerUnlink}, faults)
  {
    var marked := d.(marker := true);
    MarkerReaches(oldKey, faults, d);
    var p := Attempt(marked, oldKey, newKey, faults);
    if p.exit == Died {
      DeadLeftover(oldKey, newKey, faults, d, p);
      return p.disk, Crashed;
    }
    if p.exit == Threw {
      after, outcome := Recover(p.disk, d, p.mutated, faults);
      HandledLeftover(oldKey, newKey, faults, d, p, after, outcome);
      return;
    }
    after := p.disk;
    var close := At(faults, Close, d);
    if close != Fine || faults(CleanBackups) != Fine {
      outcome := if close.Crashes() || faults(CleanBackups).Crashes() then Crashed else LateFailure;
    } else {
      outcome := Returned(p.vaultSecrets, p.hookSecrets);
    }
    RotatedLeftover(oldKey, newKey, faults, d, outcome);
  }

  lemma MarkerReaches(oldKey: Key, faults: Step -> Fault, d: Disk)
    ensures Reaches(oldKey, faults, d) <==> Reaches(oldKey, faults, d.(marker := true))
  {
    MarkerChangesNoStep(READING, faults, d);
    MarkerChangesNoStep(WRITING, faults, d);
  }

  /** Publishing the marker does not change which steps are taken. */
  lemma MarkerChangesNoStep(steps: set<Step>, faults: Step -> Fault, d: Disk)
    ensures FineAt(steps, faults, d) <==> FineAt(steps, faults, d.(marker := true))
  {
    assert forall s :: At(faults, s, d) == At(faults, s, d.(marker := true));
  }

  /** Exactly when a rotation returns, and when it raises over a completed rotation. */
  ghost predicate Returns(
    oldKey: Option<Key>, newKey: Option<Key>, faults: Step -> Fault, d: Disk, outcome: Outcome)
  {
    && (outcome.Returned? <==> Startable(oldKey, newKey, d) && Smooth(faults, d) && SmoothEnd(faults, d))
    && (outcome.Returned? ==>
          && outcome.vaultSecrets == (if d.vault.Some? then |d.vault.value| else 0)
          && outcome.hookSecrets == (if d.hooks.Some? then |d.hooks.value| else 0))
    && (outcome.LateFailure? <==>
          Startable(oldKey, newKey, d) && Smooth(faults, d) && faults(Unlink) == Fine && RaisesLate(faults, d))
  }

  /** A rotation that stops before the protected region leaves the secrets alone. */
  lemma EarlyStop(
    oldKey: Option<Key>, newKey: Option<Key>, faults: Step -> Fault, d: Disk, after: Disk, outcome: Outcome)
    requires oldKey.None? || newKey.None? || d.marker || !FineAt(OPENING, faults, d)
    requires outcome.Refused? || ((outcome.Crashed? || outcome.Stuck?) && oldKey.Some? && newKey.Some? && !d.marker)
    requires outcome.Refused? ==> after == d
    requires after == d || after == d.(marker := true)
    ensures Permitted(oldKey, newKey, faults, d, after, outcome) && Returns(oldKey, newKey, faults, d, outcome)
  {
  }

  lemma LeftoverIsPermitted(
    oldKey: Option<Key>, newKey: Option<Key>, faults: Step -> Fault, d: Disk, after: Disk, outcome: Outcome)
    requires oldKey.Some? && newKey.Some? && !d.marker && FineAt(OPENING, faults, d)
    requires Leftover(oldKey.value, newKey.value, Tears(oldKey.value, newKey.value, faults, d), d, after, outcome)
    ensures Permitted(oldKey, newKey, faults, d, after, outcome)
  {
    assert Torn(oldKey, newKey, faults, d) <==> Tears(oldKey.value, newKey.value, faults, d);
  }

  /** `rotate_keys`. A key that does not decode to 32 bytes is None. For every fault pattern: all or nothing holds if and
      only if the rotation is not torn (see `Permitted`), and it returns exactly when nothing strikes. */
  method RotateKeys(d: Disk, oldKey: Option<Key>, newKey: Option<Key>, faults: Step -> Fault)
    returns (after: Disk, outcome: Outcome)
    ensures Permitted(oldKey, newKey, faults, d, after, outcome)
    ensures Returns(oldKey, newKey, faults, d, outcome)
    ensures oldKey.Some? && newKey.Some? ==>
      (AllOrNothing(oldKey.value, newKey.value, d, after) <==> !Torn(oldKey, newKey, faults, d))
    ensures outcome.Crashed? ==> CrashesSomewhere(faults)
    ensures outcome.Stuck? ==> RaisesIn({OpenMarker, RestoreVault, RestoreHooks, HandlerUnlink}, faults)
    ensures outcome.Refused? ==>
      oldKey.None? || newKey.None? || d.marker || RaisesIn({BackupVault, BackupHooks, OpenMarker}, faults)
    ensures oldKey.Some? && newKey.Some? && !d.marker && (forall s :: faults(s) == Fine) ==>
      if Uniform(oldKey.value, d) then outcome.Returned? && after == Rotated(oldKey.value, newKey.value, d)
      else outcome == Handled && after == d
  {
    after := d;
    if oldKey.None? || newKey.None? || d.marker {
      EarlyStop(oldKey, newKey, faults, d, d, Refused);
      return d, Refused;
    }
    var copying := [BackupVault, BackupHooks];
    var backups := FirstFault(copying, faults, d);
    if backups != Fine {
      outcome := if backups.Crashes() then Crashed else Refused;
      ghost var struck :| struck in copying && faults(struck) == backups;
      assert struck in {BackupVault, BackupHooks, OpenMarker};
      EarlyStop(oldKey, newKey, faults, d, d, outcome);
      return;
    }
    assert At(faults, copying[0], d) == Fine && At(faults, copying[1], d) == Fine;
    if faults(OpenMarker).Happens() {
      after := after.(marker := true);
    }
    if faults(OpenMarker) != Fine {
      outcome := if faults(OpenMarker).Crashes() then Crashed else if after.marker then Stuck else Refused;
      assert At(faults, OpenMarker, d) != Fine;
      EarlyStop(oldKey, newKey, faults, d, after, outcome);
      return;
    }
    assert FineAt(OPENING, faults, d);
    after, outcome := Guarded(d, oldKey.value, newKey.value, faults);
    LeftoverIsPermitted(oldKey, newKey, faults, d, after, outcome);
  }

  // ----- histories of rotations -----

  /** The plaintexts of an installation that opens under one key. */
  function Plaintexts(key: Key, d: Disk): (Option<map<Str, Str>>, Option<map<Str, Str>>)
    requires Uniform(key, d)
  {
    (if d.vault.Some? then Some(OpenAll(key, Vault, d.vault.value)) else None,
     if d.hooks.Some? then Some(OpenAll(key, Hooks, d.hooks.value)) else None)
  }

  lemma SealedOpens(key: Key, file: File, plain: map<Str, Str>)
    ensures Opens(key, file, SealAll(key, file, plain))
    ensures OpenAll(key, file, SealAll(key, file, plain)) == plain
  {
  }

  /** A rotation preserves meaning: all secrets open under the new key, to the same plaintexts. */
  lemma RotationKeepsPlaintexts(oldKey: Key, newKey: Key, d: Disk)
    requires Uniform(oldKey, d)
    ensures Uniform(newKey, Rotated(oldKey, newKey, d))
    ensures Plaintexts(newKey, Rotated(oldKey, newKey, d)) == Plaintexts(oldKey, d)
  {
    if d.vault.Some? {
      SealedOpens(newKey, Vault, OpenAll(oldKey, Vault, d.vault.value));
    }
    if d.hooks.Some? {
      SealedOpens(newKey, Hooks, OpenAll(oldKey, Hooks, d.hooks.value));
    }
  }

  /** What an installation opens under: every secret is sealed under the key, a vault secret for its name, a webhook
      secret for its subscription; a plain text never opens. */
  lemma UniformExactly(key: Key, d: Disk)
    ensures Uniform(key, d) <==>
      && (d.vault.Some? ==> forall n | n in d.vault.value ::
            var s := d.vault.value[n]; s.Sealed? && s.key == key && s.context == n)
      && (d.hooks.Some? ==> forall n | n in d.hooks.value ::
            var s := d.hooks.value[n]; s.Sealed? && s.key == key && s.context == Codes("webhook-subscription:") + n)
  {
    if d.vault.Some? {
      forall n | n in d.vault.value
        ensures Decrypt(key, d.vault.value[n], Context(Vault, n)).Some? <==>
          var s := d.vault.value[n]; s.Sealed? && s.key == key && s.context == n
      {
      }
    }
    if d.hooks.Some? {
      forall n | n in d.hooks.value
        ensures Decrypt(key, d.hooks.value[n], Context(Hooks, n)).Some? <==>
          var s := d.hooks.value[n]; s.Sealed? && s.key == key && s.context == Codes("webhook-subscription:") + n
      {
      }
    }
  }

  /** A rotation replaces the key of every secret, and nothing else; no secret comes or goes. */
  lemma RotationReplacesKeys(oldKey: Key, newKey: Key, d: Disk)
    requires Uniform(oldKey, d)
    ensures var r := Rotated(oldKey, newKey, d);
      && !r.marker
      && (r.vault.Some? <==> d.vault.Some?) && (r.hooks.Some? <==> d.hooks.Some?)
      && (d.vault.Some? ==>
            && r.vault.value.Keys == d.vault.value.Keys
            && forall n | n in d.vault.value ::
                 d.vault.value[n].Sealed? && r.vault.value[n] == d.vault.value[n].(key := newKey))
      && (d.hooks.Some? ==>
            && r.hooks.value.Keys == d.hooks.value.Keys
            && forall n | n in d.hooks.value ::
                 d.hooks.value[n].Sealed? && r.hooks.value[n] == d.hooks.value[n].(key := newKey))
  {
    if d.vault.Some? {
      RotatedTable(oldKey, newKey, Vault, d.vault.value);
    }
    if d.hooks.Some? {
      RotatedTable(oldKey, newKey, Hooks, d.hooks.value);
    }
  }

  lemma RotatedTable(oldKey: Key, newKey: Key, file: File, t: Table)
    requires Opens(oldKey, file, t)
    ensures var r := SealAll(newKey, file, OpenAll(oldKey, file, t));
      && r.Keys == t.Keys
      && forall n | n in t :: t[n].Sealed? && r[n] == t[n].(key := newKey)
  {
    forall n | n in t
      ensures t[n].Sealed? && SealAll(newKey, file, OpenAll(oldKey, file, t))[n] == t[n].(key := newKey)
    {
      assert Decrypt(oldKey, t[n], Context(file, n)).Some?;
    }
  }

  /** The disk that a split leaves has no marker and opens under no key: the secrets are lost to every key alone. */
  lemma SplitIsMixed(oldKey: Key, newKey: Key, d: Disk, key: Key)
    requires Uniform(oldKey, d) && ChangesBoth(oldKey, newKey, d)
    ensures !Uniform(key, Rotated(oldKey, newKey, d).(vault := d.vault))
  {
    SameKeyChangesNothing(oldKey, Hooks, d.hooks.value);
    if Uniform(key, Rotated(oldKey, newKey, d).(vault := d.vault)) {
      MixedUnderOneKey(oldKey, newKey, d, key);
    }
  }

  lemma MixedUnderOneKey(oldKey: Key, newKey: Key, d: Disk, key: Key)
    requires Uniform(oldKey, d) && d.vault.Some? && d.hooks.Some? && d.vault.value != map[] && d.hooks.value != map[]
    requires Uniform(key, Rotated(oldKey, newKey, d).(vault := d.vault))
    ensures oldKey == newKey
  {
    var hooks := SealAll(newKey, Hooks, OpenAll(oldKey, Hooks, d.hooks.value));
    SealedOpens(newKey, Hooks, OpenAll(oldKey, Hooks, d.hooks.value));
    assert hooks.Keys == d.hooks.value.Keys;
    SealedUnderOneKey(key, oldKey, Vault, d.vault.value);
    SealedUnderOneKey(key, newKey, Hooks, hooks);
  }

  lemma SameKeyChangesNothing(key: Key, file: File, t: Table)
    requires Opens(key, file, t)
    ensures SealAll(key, file, OpenAll(key, file, t)) == t
  {
    forall n | n in t ensures SealAll(key, file, OpenAll(key, file, t))[n] == t[n] {
      assert Decrypt(key, t[n], Context(file, n)).Some?;
    }
  }

  /** A rotation with its keys, faults and result. */
  datatype Rotation = Rotation(
    oldKey: Option<Key>, newKey: Option<Key>, faults: Step -> Fault, after: Disk, outcome: Outcome)

  ghost predicate History(d: Disk, rotations: seq<Rotation>)
    decreases |rotations|
  {
    rotations == [] ||
    (var r := rotations[0];
     Permitted(r.oldKey, r.newKey, r.faults, d, r.after, r.outcome) && History(r.after, rotations[1..]))
  }

  ghost predicate NeverTorn(d: Disk, rotations: seq<Rotation>)
    decreases |rotations|
  {
    rotations == [] ||
    (var r := rotations[0];
     !Torn(r.oldKey, r.newKey, r.faults, d) && NeverTorn(r.after, rotations[1..]))
  }

  function Last(d: Disk, rotations: seq<Rotation>): Disk {
    if rotations == [] then d else rotations[|rotations| - 1].after
  }

  /** The key an uninterrupted installation has after a history: that of the last completed rotation. */
  function CurrentKey(key: Key, d: Disk, rotations: seq<Rotation>): Key
    decreases |rotations|
  {
    if rotations == [] then key
    else
      var r := rotations[0];
      CurrentKey(if r.after != d && r.newKey.Some? then r.newKey.value else key, r.after, rotations[1..])
  }

  /** Across any history of rotations, crashes and failures, whenever the marker is absent every secret is sealed under
      one and the same key, with the plaintexts the installation started with. */
  lemma {:induction false} HistoryIsSafe(key: Key, d: Disk, rotations: seq<Rotation>)
    requires Uniform(key, d) && History(d, rotations) && NeverTorn(d, rotations)
    ensures var now := Last(d, rotations);
      !now.marker ==>
        var current := CurrentKey(key, d, rotations);
        Uniform(current, now) && Plaintexts(current, now) == Plaintexts(key, d)
    decreases |rotations|
  {
    if rotations != [] {
      var r := rotations[0];
      assert Last(d, rotations) == Last(r.after, rotations[1..]);
      if r.after.marker {
        MarkerStays(r.after, rotations[1..]);
      } else if r.after == d {
        HistoryIsSafe(key, d, rotations[1..]);
      } else {
        UniformKeyIsKnown(key, r.oldKey.value, d);
        RotationKeepsPlaintexts(r.oldKey.value, r.newKey.value, d);
        HistoryIsSafe(r.newKey.value, r.after, rotations[1..]);
      }
    }
  }

  /** No key opens the installation. */
  ghost predicate Lost(d: Disk) {
    forall k :: !Uniform(k, d)
  }

  lemma TornDisk(d: Disk, r: Rotation)
    requires Permitted(r.oldKey, r.newKey, r.faults, d, r.after, r.outcome)
    requires Torn(r.oldKey, r.newKey, r.faults, d)
    ensures r.after == Rotated(r.oldKey.value, r.newKey.value, d).(vault := d.vault)
  {
  }

  lemma TornOpensNowhere(d: Disk, r: Rotation)
    requires Permitted(r.oldKey, r.newKey, r.faults, d, r.after, r.outcome)
    requires Torn(r.oldKey, r.newKey, r.faults, d)
    ensures !r.after.marker && Lost(r.after)
  {
    TornDisk(d, r);
    forall k ensures !Uniform(k, r.after) {
      SplitIsMixed(r.oldKey.value, r.newKey.value, d, k);
    }
  }

  lemma LostStays(after: Disk, rest: seq<Rotation>)
    requires !after.marker && Lost(after) && History(after, rest) && !Last(after, rest).marker
    ensures Lost(Last(after, rest))
  {
    MixedStays(after, rest);
  }

  /** A history goes on as one. */
  lemma HistoryGoesOn(d: Disk, rotations: seq<Rotation>)
    requires rotations != [] && History(d, rotations)
    ensures var r := rotations[0]; Permitted(r.oldKey, r.newKey, r.faults, d, r.after, r.outcome)
    ensures History(rotations[0].after, rotations[1..])
    ensures Last(d, rotations) == Last(rotations[0].after, rotations[1..])
    ensures NeverTorn(d, rotations) <==>
      !Torn(rotations[0].oldKey, rotations[0].newKey, rotations[0].faults, d)
      && NeverTorn(rotations[0].after, rotations[1..])
  {
  }

  /** After a torn rotation nothing opens the installation any more, whatever is tried. */
  lemma {:induction false} TornIsLost(d: Disk, rotations: seq<Rotation>)
    requires History(d, rotations) && !NeverTorn(d, rotations) && !Last(d, rotations).marker
    ensures Lost(Last(d, rotations))
    decreases |rotations|
  {
    HistoryGoesOn(d, rotations);
    if Torn(rotations[0].oldKey, rotations[0].newKey, rotations[0].faults, d) {
      TornOpensNowhere(d, rotations[0]);
      LostStays(rotations[0].after, rotations[1..]);
    } else {
      TornIsLost(rotations[0].after, rotations[1..]);
    }
  }

  /** The exact condition: an installation without a marker opens under one key if and only if no rotation of its history
      was torn, and then to the plaintexts of the start (`HistoryIsSafe`). */
  lemma HistoryIsSafeExactly(key: Key, d: Disk, rotations: seq<Rotation>)
    requires Uniform(key, d) && History(d, rotations) && !Last(d, rotations).marker
    ensures (exists k :: Uniform(k, Last(d, rotations))) <==> NeverTorn(d, rotations)
  {
    if NeverTorn(d, rotations) {
      HistoryIsSafe(key, d, rotations);
      assert Uniform(CurrentKey(key, d, rotations), Last(d, rotations));
    } else {
      TornIsLost(d, rotations);
    }
  }

  /** What opens under no key is never changed by a rotation again. */
  lemma {:induction false} MixedStays(d: Disk, rotations: seq<Rotation>)
    requires !d.marker && History(d, rotations) && !Last(d, rotations).marker
    requires Lost(d)
    ensures Last(d, rotations) == d
    decreases |rotations|
  {
    if rotations != [] {
      var r := rotations[0];
      if r.after.marker {
        MarkerStays(r.after, rotations[1..]);
      } else {
        MixedStays(r.after, rotations[1..]);
      }
    }
  }

  /** Once a rotation is interrupted every later one is refused, until an operator restores. */
  lemma {:induction false} MarkerStays(d: Disk, rotations: seq<Rotation>)
    requires d.marker && History(d, rotations)
    ensures Last(d, rotations) == d
    decreases |rotations|
  {
    if rotations != [] {
      MarkerStays(rotations[0].after, rotations[1..]);
    }
  }

  /** An installation that opens under two keys has the same plaintexts under both: the keys differ only where there is
      nothing to open. */
  lemma UniformKeyIsKnown(key: Key, other: Key, d: Disk)
    requires Uniform(key, d) && Uniform(other, d)
    ensures Plaintexts(key, d) == Plaintexts(other, d)
    ensures key == other
      || ((d.vault.None? || d.vault.value == map[]) && (d.hooks.None? || d.hooks.value == map[]))
  {
    if d.vault.Some? && d.vault.value != map[] {
      SealedUnderOneKey(key, other, Vault, d.vault.value);
    } else if d.hooks.Some? && d.hooks.value != map[] {
      SealedUnderOneKey(key, other, Hooks, d.hooks.value);
    }
  }

  lemma SealedUnderOneKey(key: Key, other: Key, file: File, t: Table)
    requires Opens(key, file, t) && Opens(other, file, t) && t != map[]
    ensures key == other
  {
    assert t.Keys != {};
    var n :| n in t;
    assert Decrypt(key, t[n], Context(file, n)).Some? && Decrypt(other, t[n], Context(file, n)).Some?;
  }
}
