/**
 * The crash-safe conversion of a plaintext database into an encrypted one, and
 * the recovery that runs at every start (src/tatatuya/infrastructure/database.py).
 *
 * The durable state is a `Disk`: four file names and the secret store. `Step`
 * lists every change the program may make to it, one rename, unlink, write or
 * store update at a time. A run is any sequence of steps: because a crash changes
 * nothing on disk, every interleaving of crashes, faults, cancellations and
 * restarts is a run. Class `Database` is the program itself; every write it makes
 * is appended to a ghost history that is proved to be a run.
 */
module Conversion {
  import opened Common

  /** A 32-byte key when well formed; the store may also hold a malformed one. */
  type Key = seq<int>

  /** The settings table, if there is one, and the Client Secret an old version kept in it. */
  datatype Settings = NoSettings | Settings(secret: Option<string>)

  /**
   * The logical contents of a database, and what the checks of a conversion find in it: whether
   * every foreign key has its row, whether the rows satisfy the schema's constraints, and whether
   * every value has a type that a snapshot can encode.
   */
  datatype Contents = Contents(
    rows: seq<string>,
    settings: Settings,
    foreignKeysHold: bool,
    constraintsHold: bool,
    valuesSupported: bool)
  {
    /** `_read_legacy_client_secret` */
    function LegacySecret(): Option<string> {
      if settings.Settings? then settings.secret else None
    }
  }

  /** Everything the conversion checks: the settings table it deletes from, and the three conditions above. */
  predicate Convertible(c: Contents) {
    c.settings.Settings? && c.foreignKeysHold && c.constraintsHold && c.valuesSupported
  }

  datatype File =
    | Absent
    | Plain(contents: Contents)
    | Encrypted(contents: Contents, key: Key)
    | Unfinished

  datatype Marker = NoMarker | Torn | Complete

  /**
   * `temporary` is the file whose name is known, to the running conversion or to the marker; `strays`
   * counts temporary files whose names nobody knows any more.
   */
  datatype Disk = Disk(
    main: File,
    rollback: File,
    temporary: File,
    marker: Marker,
    key: Option<Key>,
    secret: Option<string>,
    strays: nat)

  predicate WellFormedKey(k: Key) {
    |k| == 32
  }

  predicate KeyUsable(key: Option<Key>) {
    key.Some? ==> WellFormedKey(key.value)
  }

  function WithoutSecret(c: Contents): Contents {
    if c.settings.Settings? then c.(settings := Settings(None)) else c
  }

  const EMPTY_CONTENTS := Contents([], NoSettings, true, true, true)

  /** The store holds the secret that the plaintext database carries, if it carries one. */
  predicate SecretKept(c: Contents, secret: Option<string>) {
    c.LegacySecret().Some? && c.LegacySecret().value != "" ==> secret == c.LegacySecret()
  }

  /** What a verified encrypted copy of `c` is: same rows, no secret row, openable with the stored key. */
  predicate IsExportOf(f: File, c: Contents, key: Option<Key>) {
    && f.Encrypted?
    && f.contents == WithoutSecret(c)
    && Convertible(c)
    && WellFormedKey(f.key)
    && key == Some(f.key)
  }

  // ------------------------------------------------------------ protocol steps

  predicate StoreSecret(d: Disk, d': Disk) {
    && d.main.Plain?
    && d.marker.NoMarker?
    && d.main.contents.LegacySecret().Some?
    && d' == d.(secret := d.main.contents.LegacySecret())
  }

  predicate CreateKey(d: Disk, d': Disk) {
    && (d.main.Plain? || d.main.Absent?)
    && d.marker.NoMarker?
    && d.key.None?
    && d'.key.Some?
    && WellFormedKey(d'.key.value)
    && d' == d.(key := d'.key)
  }

  predicate CreateTemporary(d: Disk, d': Disk) {
    && d.main.Plain?
    && d.marker.NoMarker?
    && d.temporary.Absent?
    && d' == d.(temporary := Unfinished)
  }

  /** The disk once a conversion attempt is over: a temporary that no whole marker names has become a stray. */
  function Forgotten(d: Disk): Disk {
    if d.marker.Complete? || d.temporary.Absent? then d else d.(temporary := Absent, strays := d.strays + 1)
  }

  /** The attempt that made the temporary ends, with its process or by an error; only who knows its name changes. */
  predicate ForgetTemporary(d: Disk, d': Disk) {
    !d.marker.Complete? && !d.temporary.Absent? && d' == Forgotten(d)
  }

  /** The marker file exists but its JSON is not whole yet. */
  predicate BeginMarker(d: Disk, d': Disk) {
    && d.main.Plain?
    && d.marker.NoMarker?
    && d.rollback.Absent?
    && d.temporary.Unfinished?
    && SecretKept(d.main.contents, d.secret)
    && d.key.Some?
    && WellFormedKey(d.key.value)
    && d' == d.(marker := Torn)
  }

  predicate FinishMarker(d: Disk, d': Disk) {
    && d.marker.Torn?
    && d.temporary.Unfinished?
    && d' == d.(marker := Complete)
  }

  predicate Export(d: Disk, d': Disk) {
    && d.main.Plain?
    && d.marker.Complete?
    && (d'.temporary.Unfinished? || (d'.temporary.Encrypted? && d.key == Some(d'.temporary.key)))
    && d' == d.(temporary := d'.temporary)
  }

  /** `os.replace(main, rollback)`: only a sound export may take the original's place. */
  predicate RetireSource(d: Disk, d': Disk) {
    && d.main.Plain?
    && d.marker.Complete?
    && d.rollback.Absent?
    && IsExportOf(d.temporary, d.main.contents, d.key)
    && d' == d.(main := Absent, rollback := d.main)
  }

  /** `os.replace(temporary, main)`: the file may turn out damaged, which only the active check notices. */
  predicate InstallExport(d: Disk, d': Disk) {
    && d.main.Absent?
    && d.marker.Complete?
    && d.rollback.Plain?
    && IsExportOf(d.temporary, d.rollback.contents, d.key)
    && (d'.main == d.temporary || d'.main.Unfinished?)
    && d' == d.(main := d'.main, temporary := Absent)
  }

  predicate RestoreSource(d: Disk, d': Disk) {
    && !d.main.Plain?
    && d.marker.Complete?
    && d.rollback.Plain?
    && d' == d.(main := d.rollback, rollback := Absent)
  }

  predicate DropRollback(d: Disk, d': Disk) {
    && d.marker.Complete?
    && d.rollback.Plain?
    && IsExportOf(d.main, d.rollback.contents, d.key)
    && d' == d.(rollback := Absent)
  }

  predicate DropTemporary(d: Disk, d': Disk) {
    && !d.marker.Torn?
    && !d.main.Absent?
    && d' == d.(temporary := Absent)
  }

  predicate ForgetMarker(d: Disk, d': Disk) {
    && d.marker.Complete?
    && !d.main.Absent?
    && d.rollback.Absent?
    && d.temporary.Absent?
    && d' == d.(marker := NoMarker)
  }

  predicate CreateFresh(d: Disk, d': Disk) {
    && d.main.Absent?
    && d.marker.NoMarker?
    && d.key.Some?
    && WellFormedKey(d.key.value)
    && d' == d.(main := Encrypted(EMPTY_CONTENTS, d.key.value))
  }

  predicate Step(d: Disk, d': Disk) {
    || StoreSecret(d, d')
    || CreateKey(d, d')
    || CreateTemporary(d, d')
    || ForgetTemporary(d, d')
    || BeginMarker(d, d')
    || FinishMarker(d, d')
    || Export(d, d')
    || RetireSource(d, d')
    || InstallExport(d, d')
    || RestoreSource(d, d')
    || DropRollback(d, d')
    || DropTemporary(d, d')
    || ForgetMarker(d, d')
    || CreateFresh(d, d')
  }

  /** Before the first start: one database or none, and any store contents. */
  predicate Initial(original: File, d: Disk) {
    && !original.Unfinished?
    && d.main == original
    && d.rollback.Absent?
    && d.temporary.Absent?
    && d.marker.NoMarker?
  }

  predicate IsRun(original: File, run: seq<Disk>) {
    && |run| > 0
    && Initial(original, run[0])
    && forall i | 0 < i < |run| :: Step(run[i - 1], run[i])
  }

  // ------------------------------------------------------------ the invariant

  predicate SafeConversion(c: Contents, d: Disk) {
    && (d.main == Plain(c) || d.main.Absent? || d.main.Unfinished? || IsExportOf(d.main, c, d.key))
    && (d.rollback.Absent? || d.rollback == Plain(c))
    && (d.main.Plain? ==> d.rollback.Absent?)
    && (d.main.Absent? || d.main.Unfinished? ==> d.rollback.Plain?)
    && (d.rollback.Plain? ==> d.marker.Complete?)
    && (d.marker.Torn? ==> d.main.Plain?)
    && (!d.main.Plain? ==> Convertible(c))
    && (!d.marker.NoMarker? || !d.main.Plain? ==>
          SecretKept(c, d.secret) && d.key.Some? && WellFormedKey(d.key.value))
    && !d.temporary.Plain?
    && (d.temporary.Encrypted? ==> d.marker.Complete? && d.key == Some(d.temporary.key))
    && (d.main.Absent? ==> d.marker.Complete? && IsExportOf(d.temporary, c, d.key))
    && (d.main.Encrypted? && d.marker.NoMarker? ==> d.temporary.Absent?)
  }

  /** The inductive invariant of every run that starts from `original`. */
  predicate Safe(original: File, d: Disk) {
    match original
    case Plain(c) => SafeConversion(c, d)
    case Encrypted(_, _) =>
      d.main == original && d.rollback.Absent? && d.temporary.Absent? && d.marker.NoMarker?
    case Absent =>
      && d.rollback.Absent?
      && d.temporary.Absent?
      && d.marker.NoMarker?
      && (d.main.Absent? || (d.key.Some? && d.main == Encrypted(EMPTY_CONTENTS, d.key.value)))
    case Unfinished => false
  }

  lemma StepKeepsSafe(original: File, d: Disk, d': Disk)
    requires Safe(original, d) && Step(d, d')
    ensures Safe(original, d')
  {
  }

  /** Every state of every run satisfies the invariant. */
  lemma {:induction false} RunsAreSafe(original: File, run: seq<Disk>)
    requires IsRun(original, run)
    ensures forall i | 0 <= i < |run| :: Safe(original, run[i])
  {
    if |run| > 1 {
      var shorter := run[..|run| - 1];
      RunsAreSafe(original, shorter);
      var last := |run| - 1;
      assert Safe(original, run[last - 1]) by { assert run[last - 1] == shorter[last - 1]; }
      StepKeepsSafe(original, run[last - 1], run[last]);
      forall i | 0 <= i < |run| ensures Safe(original, run[i]) {
        if i < last { assert run[i] == shorter[i]; }
      }
    }
  }

  // ------------------------------------------------------------ theorems over all runs

  /** A reader holding the stored key gets the rows of `c` from this file. */
  predicate Readable(f: File, c: Contents, key: Option<Key>) {
    f == Plain(c) || (f.Encrypted? && key == Some(f.key) && f.contents.rows == c.rows)
  }

  /** What a crash at this very moment would leave behind. */
  predicate HoldsOriginal(original: File, d: Disk) {
    match original
    case Plain(c) =>
      || Readable(d.main, c, d.key)
      || ((d.main.Absent? || d.main.Unfinished?) && d.marker.Complete? && d.rollback == original)
    case Encrypted(_, _) => d.main == original
    case _ => true
  }

  lemma {:induction false} OriginalIsNeverLost(original: File, run: seq<Disk>)
    requires IsRun(original, run)
    ensures forall i | 0 <= i < |run| :: HoldsOriginal(original, run[i])
  {
    RunsAreSafe(original, run);
    forall i | 0 <= i < |run| ensures HoldsOriginal(original, run[i]) {
      assert Safe(original, run[i]);
    }
  }

  /** The step that creates a fresh database is only ever taken when there was none at the start. */
  lemma FreshDatabaseNeverHidesData(original: File, run: seq<Disk>, i: nat)
    requires IsRun(original, run)
    requires 0 < i < |run| && CreateFresh(run[i - 1], run[i])
    ensures original.Absent?
    ensures run[i - 1].main.Absent? && run[i - 1].rollback.Absent? && run[i - 1].temporary.Absent?
  {
    RunsAreSafe(original, run);
    assert Safe(original, run[i - 1]);
  }

  /** A key once stored stays, whatever happens between two moments of a run. */
  lemma {:induction false} KeyIsNeverReplaced(original: File, run: seq<Disk>, i: nat, j: nat)
    requires IsRun(original, run)
    requires i <= j < |run|
    ensures run[i].key.Some? ==> run[j].key == run[i].key
    decreases j
  {
    if i < j {
      KeyIsNeverReplaced(original, run, i, j - 1);
      assert Step(run[j - 1], run[j]);
    }
  }

  /** Every encrypted copy made from a plaintext original opens with the key that is in the store. */
  lemma CopiesOpenWithStoredKey(original: File, run: seq<Disk>, i: nat, f: File)
    requires IsRun(original, run) && original.Plain?
    requires i < |run| && f in {run[i].main, run[i].rollback, run[i].temporary}
    requires f.Encrypted?
    ensures run[i].key == Some(f.key)
  {
    RunsAreSafe(original, run);
    assert Safe(original, run[i]);
  }

  /** Once no plaintext copy is left, the store holds the exact secret that the plaintext carried. */
  lemma SecretOutlivesPlaintext(original: File, run: seq<Disk>, i: nat)
    requires IsRun(original, run) && original.Plain?
    requires i < |run| && run[i].main != original && run[i].rollback != original
    ensures SecretKept(original.contents, run[i].secret)
    ensures run[i].main.Encrypted? && run[i].main.contents.LegacySecret().None?
  {
    RunsAreSafe(original, run);
    assert Safe(original, run[i]);
  }

  /** The store's secret is the one it started with or the one the plaintext carries, never a third. */
  lemma {:induction false} SecretComesFromSomewhere(original: File, run: seq<Disk>, i: nat)
    requires IsRun(original, run) && original.Plain?
    requires i < |run|
    ensures run[i].secret in {run[0].secret, original.contents.LegacySecret()}
    decreases i
  {
    if i > 0 {
      SecretComesFromSomewhere(original, run, i - 1);
      RunsAreSafe(original, run);
      assert Safe(original, run[i - 1]) && Step(run[i - 1], run[i]);
    }
  }

  /** The two classification errors of recovery cannot arise, and a torn marker means nothing has moved. */
  lemma RecoveryIsNeverAmbiguous(original: File, run: seq<Disk>, i: nat)
    requires IsRun(original, run) && i < |run|
    ensures !(run[i].main.Plain? && !run[i].rollback.Absent?)
    ensures run[i].marker.Complete? ==> !(run[i].main.Absent? && run[i].rollback.Absent?)
    ensures run[i].marker.Torn? ==> run[i].main == original && run[i].rollback.Absent?
  {
    RunsAreSafe(original, run);
    assert Safe(original, run[i]);
  }

  /** A torn marker can really be left behind: a process that dies while writing it. */
  lemma TornMarkerIsReachable(c: Contents, key: Key) returns (run: seq<Disk>)
    requires WellFormedKey(key)
    ensures IsRun(Plain(c), run) && run[|run| - 1].marker.Torn?
  {
    var start := Disk(Plain(c), Absent, Absent, NoMarker, Some(key), c.LegacySecret(), 0);
    var made := start.(temporary := Unfinished);
    run := [start, made, made.(marker := Torn)];
    assert CreateTemporary(run[0], run[1]) && BeginMarker(run[1], run[2]);
  }

  // ------------------------------------------------------------ temporaries nobody can name

  /** One step leaves the strays alone, unless an attempt ends with a temporary that no whole marker names. */
  lemma StraysComeFromForgetting(d: Disk, d': Disk)
    requires Step(d, d')
    ensures d'.strays == d.strays + if ForgetTemporary(d, d') then 1 else 0
  {
  }

  /** A stray is never cleaned up: no later moment of a run has fewer. */
  lemma {:induction false} StraysStay(original: File, run: seq<Disk>, i: nat, j: nat)
    requires IsRun(original, run) && i <= j < |run|
    ensures run[i].strays <= run[j].strays
    decreases j
  {
    if i < j {
      StraysStay(original, run, i, j - 1);
      assert Step(run[j - 1], run[j]);
    }
  }

  /** A stray can really be left, and outlives the whole conversion: here the database ends encrypted beside it. */
  lemma StrayIsReachable(c: Contents, key: Key) returns (run: seq<Disk>)
    requires WellFormedKey(key) && Convertible(c)
    ensures IsRun(Plain(c), run)
    ensures var end := run[|run| - 1];
      IsExportOf(end.main, c, end.key) && end.marker.NoMarker? && end.temporary.Absent? && end.strays == 1
  {
    var start := Disk(Plain(c), Absent, Absent, NoMarker, Some(key), c.LegacySecret(), 0);
    var copy := Encrypted(WithoutSecret(c), key);
    var begun := start.(strays := 1, temporary := Unfinished);
    var exported := begun.(marker := Complete, temporary := copy);
    var retired := exported.(main := Absent, rollback := Plain(c));
    run := [
      start, start.(temporary := Unfinished), start.(strays := 1),
      begun, begun.(marker := Torn), begun.(marker := Complete), exported,
      retired, retired.(main := copy, temporary := Absent),
      retired.(main := copy, temporary := Absent, rollback := Absent),
      retired.(main := copy, temporary := Absent, rollback := Absent, marker := NoMarker)];
    assert CreateTemporary(run[0], run[1]) && ForgetTemporary(run[1], run[2]) && CreateTemporary(run[2], run[3]);
    assert BeginMarker(run[3], run[4]) && FinishMarker(run[4], run[5]) && Export(run[5], run[6]);
    assert RetireSource(run[6], run[7]) && InstallExport(run[7], run[8]) && DropRollback(run[8], run[9]);
    assert ForgetMarker(run[9], run[10]);
  }

  // ------------------------------------------------------------ databases that never convert

  /** Contents that fail one of the checks stay the untouched plaintext file at every moment of every run. */
  lemma UnconvertibleStaysPlain(original: File, run: seq<Disk>, i: nat)
    requires IsRun(original, run) && original.Plain? && !Convertible(original.contents) && i < |run|
    ensures run[i].main == original && run[i].rollback.Absent?
  {
    RunsAreSafe(original, run);
    assert Safe(original, run[i]);
  }

  /** For one, a sound database that has no settings table. */
  lemma WithoutSettingsNeverConverts(run: seq<Disk>, i: nat)
    requires IsRun(Plain(Contents(["meter"], NoSettings, true, true, true)), run) && i < |run|
    ensures run[i].main == Plain(Contents(["meter"], NoSettings, true, true, true))
  {
    UnconvertibleStaysPlain(Plain(Contents(["meter"], NoSettings, true, true, true)), run, i);
  }

  // ------------------------------------------------------------ names in the marker

  predicate IsNameCharacter(c: char) {
    'a' <= c <= 'z' || '0' <= c <= '9' || c == '_'
  }

  predicate IsVariablePart(s: string) {
    s != "" && forall i | 0 <= i < |s| :: IsNameCharacter(s[i])
  }

  predicate StartsWith(s: string, prefix: string) {
    prefix <= s
  }

  predicate EndsWith(s: string, suffix: string) {
    |suffix| <= |s| && s[|s| - |suffix|..] == suffix
  }

  /** `Path(value).name == value`: a single path component. */
  predicate IsFileName(s: string) {
    s != "" && s != "." && '/' !in s
  }

  /** `_migration_member`: the sibling file a marker entry may name, or a refusal. */
  function MigrationMember(value: string, prefix: string, suffix: string): Option<string> {
    if !IsFileName(value) || !StartsWith(value, prefix) || !EndsWith(value, suffix) then None
    else
      var rest := value[|prefix|..];
      var variable := if |rest| <= |suffix| then "" else rest[..|rest| - |suffix|];
      if IsVariablePart(variable) then Some(value) else None
  }

  /**
   * Exactly the names the writer makes are accepted, each as itself: prefix, a non-empty part of
   * lower-case letters, digits and underscores, suffix. Nothing accepted leaves the directory.
   */
  lemma AcceptedNamesAreWritten(value: string, prefix: string, suffix: string)
    requires '/' !in prefix && '/' !in suffix
    ensures MigrationMember(value, prefix, suffix).Some?
      <==> exists variable :: IsVariablePart(variable) && value == prefix + variable + suffix
    ensures MigrationMember(value, prefix, suffix).Some? ==>
      MigrationMember(value, prefix, suffix).value == value && '/' !in value
  {
    hide MigrationMember, IsVariablePart;
    if MigrationMember(value, prefix, suffix).Some? {
      var variable := WrittenPart(value, prefix, suffix);
    }
    forall variable | IsVariablePart(variable) && value == prefix + variable + suffix
      ensures MigrationMember(value, prefix, suffix) == Some(value)
    {
      WrittenIsAccepted(prefix, variable, suffix);
    }
  }

  lemma WrittenPart(value: string, prefix: string, suffix: string) returns (variable: string)
    requires MigrationMember(value, prefix, suffix).Some?
    ensures IsVariablePart(variable) && value == prefix + variable + suffix
    ensures MigrationMember(value, prefix, suffix).value == value && '/' !in value
  {
    hide IsNameCharacter;
    variable := value[|prefix|..|value| - |suffix|];
    assert value[|prefix|..][..|value| - |prefix| - |suffix|] == variable;
  }

  lemma WrittenIsAccepted(prefix: string, variable: string, suffix: string)
    requires '/' !in prefix && '/' !in suffix && IsVariablePart(variable)
    ensures MigrationMember(prefix + variable + suffix, prefix, suffix) == Some(prefix + variable + suffix)
  {
    var value := prefix + variable + suffix;
    assert value[|prefix|..] == variable + suffix;
    assert (variable + suffix)[..|variable|] == variable;
    assert '/' !in variable;
    assert value[|prefix|] == variable[0] && value[|prefix|] != '.';
    assert value != "." && IsFileName(value);
  }

  /** The same by position: every character between prefix and suffix is a lower-case letter, a digit or an underscore. */
  lemma AcceptedCharacters(value: string, prefix: string, suffix: string)
    requires '/' !in prefix && '/' !in suffix
    ensures MigrationMember(value, prefix, suffix).Some?
      <==> && |value| > |prefix| + |suffix| && value[..|prefix|] == prefix && value[|value| - |suffix|..] == suffix
           && forall i | |prefix| <= i < |value| - |suffix| ::
                'a' <= value[i] <= 'z' || '0' <= value[i] <= '9' || value[i] == '_'
  {
    hide MigrationMember, IsNameCharacter;
    AcceptedNamesAreWritten(value, prefix, suffix);
    if |value| > |prefix| + |suffix| && value[..|prefix|] == prefix && value[|value| - |suffix|..] == suffix {
      var middle := value[|prefix|..|value| - |suffix|];
      assert value == prefix + middle + suffix;
      MiddleCharacters(value, prefix, middle, suffix);
    }
    forall variable | IsVariablePart(variable) && value == prefix + variable + suffix
      ensures |value| > |prefix| + |suffix| && value[..|prefix|] == prefix && value[|value| - |suffix|..] == suffix
      ensures variable == value[|prefix|..|value| - |suffix|]
    {
    }
  }

  lemma MiddleCharacters(value: string, prefix: string, middle: string, suffix: string)
    requires value == prefix + middle + suffix && middle != ""
    ensures IsVariablePart(middle) <==> forall i | |prefix| <= i < |value| - |suffix| ::
      'a' <= value[i] <= 'z' || '0' <= value[i] <= '9' || value[i] == '_'
  {
    assert forall i | 0 <= i < |middle| :: middle[i] == value[|prefix| + i];
    assert forall i | |prefix| <= i < |value| - |suffix| :: value[i] == middle[i - |prefix|];
  }

  // ------------------------------------------------------------ one fault-free start

  /** What recovery leaves when nothing interferes. */
  function Recovered(d: Disk): Disk {
    if !d.marker.Complete? then d
    else if d.main.Absent? || d.main.Unfinished? then
      d.(main := d.rollback, rollback := Absent, temporary := Absent, marker := NoMarker)
    else d.(rollback := Absent, temporary := Absent, marker := NoMarker)
  }

  /** What recovery leaves when it could not verify the encrypted main file. */
  function RolledBack(d: Disk): Disk {
    d.(main := if d.rollback.Absent? then d.main else d.rollback,
       rollback := Absent, temporary := Absent, marker := NoMarker)
  }

  datatype Failure =
    | StateInvalid
    | Ambiguous
    | CannotRecover
    | KeyUnavailable
    | KeyInvalid
    | RoundTripFailed
    | ExportMismatch
    | VerificationFailed
    | Interrupted

  datatype Outcome = Done | Raised(failure: Failure) | Crashed

  /** The disk after a fault-free conversion of `d.main`, with `key` as the stored key. */
  predicate Converted(d: Disk, d': Disk)
    requires d.main.Plain?
  {
    && IsExportOf(d'.main, d.main.contents, d'.key)
    && d'.rollback.Absent?
    && d'.temporary.Absent?
    && d'.marker.NoMarker?
    && SecretKept(d.main.contents, d'.secret)
    && (d.key.Some? ==> d'.key == d.key)
    && d'.strays == d.strays
  }

  /** The contract of one start that no fault, cancellation or crash disturbs. */
  predicate Settles(d: Disk, d': Disk, o: Outcome) {
    var r := Recovered(Forgotten(d));
    if d.marker.Torn? then
      o == Raised(StateInvalid) && d' == r
    else if r.main.Plain? then
      if Convertible(r.main.contents) && (r.key.Some? ==> |r.key.value| == 32) then
        o.Done? && Converted(r, d')
      else
        && o.Raised?
        && d'.main == r.main && d'.rollback.Absent? && d'.marker.NoMarker? && d'.temporary.Absent?
        && d'.strays == r.strays
        && (r.key.Some? ==> d'.key == r.key)
    else if r.main.Encrypted? then
      && d' == r
      && o == (if r.key.None? then Raised(KeyUnavailable)
               else if |r.key.value| != 32 then Raised(KeyInvalid)
               else if r.key.value != r.main.key then Raised(VerificationFailed)
               else Done)
    else if r.key.Some? ==> |r.key.value| == 32 then
      && o.Done?
      && d'.key.Some? && |d'.key.value| == 32
      && (r.key.Some? ==> d'.key == r.key)
      && d' == r.(key := d'.key, main := Encrypted(EMPTY_CONTENTS, d'.key.value))
    else
      o == Raised(KeyInvalid) && d' == r
  }

  /**
   * Convergence: from any state a run can be in, one undisturbed start ends with the original
   * encrypted if and only if the marker is whole or absent, and either main is encrypted already
   * or the original has a settings table, holds its foreign keys and constraints, has supported
   * values, and a stored key, if any, is well formed. No artifact stays beside it but the strays:
   * those it found, and one more exactly when it found a temporary that no whole marker names.
   */
  lemma OneCleanStartConverges(original: File, run: seq<Disk>, d': Disk, o: Outcome)
    requires IsRun(original, run) && original.Plain?
    requires Settles(run[|run| - 1], d', o)
    ensures
      var d, c := run[|run| - 1], original.contents;
      o.Done? <==>
        !d.marker.Torn?
        && (d.main.Encrypted?
            || (c.settings.Settings? && c.foreignKeysHold && c.constraintsHold && c.valuesSupported
                && (d.key.Some? ==> |d.key.value| == 32)))
    ensures o.Done? ==>
      && IsExportOf(d'.main, original.contents, d'.key)
      && d'.rollback.Absent? && d'.temporary.Absent? && d'.marker.NoMarker?
      && SecretKept(original.contents, d'.secret)
    ensures !o.Done? ==> d'.main == original && d'.rollback.Absent?
    ensures
      var d := run[|run| - 1];
      && d'.temporary.Absent?
      && d'.strays == d.strays + (if d.marker.Complete? || d.temporary.Absent? then 0 else 1)
      && (o.Done? && d'.strays == d.strays + 1 ==> d.marker.NoMarker? && d.main == original && d.temporary.Unfinished?)
  {
    RunsAreSafe(original, run);
    assert Safe(original, run[|run| - 1]);
  }

  /** A second undisturbed start after a successful one changes nothing. */
  lemma StartingAgainChangesNothing(original: File, run: seq<Disk>, d': Disk, d'': Disk, o: Outcome)
    requires IsRun(original, run)
    requires Settles(run[|run| - 1], d', Done) && Settles(d', d'', o)
    ensures o.Done? && d'' == d'
  {
    RunsAreSafe(original, run);
    assert Safe(original, run[|run| - 1]);
  }

  /** Recovery is idempotent on every reachable state, and what it keeps depends only on what main is. */
  lemma RecoveryIsIdempotent(original: File, run: seq<Disk>, i: nat)
    requires IsRun(original, run) && i < |run|
    ensures
      var r := Recovered(run[i]);
      Recovered(r) == r && Safe(original, r) && (!run[i].marker.Torn? ==> r.marker.NoMarker? && !r.main.Unfinished?)
    ensures original.Plain? && run[i].marker.Complete? && !run[i].main.Encrypted? ==> Recovered(run[i]).main == original
  {
    RunsAreSafe(original, run);
    assert Safe(original, run[i]);
  }

  // ------------------------------------------------------------ the program

  predicate Opens(f: File, key: Key) {
    f.Encrypted? && f.key == key
  }

  /** The key with every bit of its first byte turned over. */
  function WrongKey(key: Key): (wrong: Key)
    requires key != []
    ensures wrong != key
  {
    [255 - key[0]] + key[1..]
  }

  /** What the checks of an encrypted file look for in its contents. */
  predicate PassesChecks(c: Contents) {
    c.foreignKeysHold && c.constraintsHold && c.settings == Settings(None)
  }

  /**
   * `Database` with its durable state. Parameter `mayFail` switches every fault on:
   * at each hazard point the call may then raise or the process may die.
   */
  class Database {
    var disk: Disk
    var prepared: bool
    var databaseKey: Option<Key>
    ghost var history: seq<Disk>
    ghost const original: File

    ghost predicate Valid()
      reads this
    {
      && IsRun(original, history)
      && history[|history| - 1] == disk
      && Safe(original, disk)
      && (prepared ==>
            disk.main.Encrypted? && databaseKey == disk.key == Some(disk.main.key) && disk.marker.NoMarker?)
    }

    /** The disk as found when the program is first run beside `original`. */
    constructor (start: Disk)
      requires Initial(start.main, start)
      ensures Valid() && !prepared && disk == start && original == start.main && history == [start]
    {
      disk := start;
      prepared := false;
      databaseKey := None;
      history := [start];
      original := start.main;
    }

    /** The process ends, in whatever state the disk is, and a new one starts; nobody knows an unnamed temporary now. */
    method Restart()
      requires Valid()
      modifies this
      ensures Valid() && !prepared && disk == Forgotten(old(disk)) && old(history) <= history
    {
      prepared := false;
      databaseKey := None;
      Forget();
    }

    /** An attempt is over: the name of a temporary that no whole marker holds is lost with it. */
    method Forget()
      requires Valid() && !prepared
      modifies this`disk, this`history
      ensures Valid() && disk == Forgotten(old(disk)) && old(history) <= history
    {
      if !disk.marker.Complete? && !disk.temporary.Absent? {
        var _ := Take(Forgotten(disk), false);
      }
    }

    /** A point where the program can be interrupted: an I/O error, a cancellation or a crash. */
    method Hazard(mayFail: bool) returns (o: Outcome)
      ensures o in {Done, Raised(Interrupted), Crashed}
      ensures !mayFail ==> o.Done?
    {
      if mayFail {
        if * { return Raised(Interrupted); }
        if * { return Crashed; }
      }
      return Done;
    }

    /** One durable change, which must be a step of the protocol, and the hazard right after it. */
    method Take(next: Disk, mayFail: bool) returns (o: Outcome)
      requires Valid() && !prepared && Step(disk, next)
      modifies this`disk, this`history
      ensures Valid() && disk == next && history == old(history) + [next]
      ensures o in {Done, Raised(Interrupted), Crashed}
      ensures !mayFail ==> o.Done?
    {
      StepKeepsSafe(original, disk, next);
      disk := next;
      history := history + [next];
      o := Hazard(mayFail);
    }

    method RemoveTemporary(mayFail: bool) returns (o: Outcome)
      requires Valid() && !prepared && !disk.marker.Torn? && !disk.main.Absent?
      modifies this`disk, this`history
      ensures Valid() && disk == old(disk).(temporary := Absent) && old(history) <= history
      ensures o in {Done, Raised(Interrupted), Crashed}
      ensures !mayFail ==> o.Done?
    {
      o := Done;
      if !disk.temporary.Absent? {
        o := Take(disk.(temporary := Absent), mayFail);
      }
    }

    /** `_verify_migrated_database`: each of its checks in turn; it can refuse a sound file, never accept an unsound one. */
    method Verify(f: File, key: Key, mayFail: bool) returns (o: Outcome)
      requires WellFormedKey(key)
      ensures o.Done? ==> Opens(f, key) && PassesChecks(f.contents)
      ensures !mayFail ==> o == if Opens(f, key) && PassesChecks(f.contents) then Done else Raised(VerificationFailed)
      ensures o.Raised? ==> o.failure in {Interrupted, VerificationFailed}
    {
      o := Hazard(mayFail);
      if !o.Done? { return; }
      if !Opens(f, key) { return Raised(VerificationFailed); }
      if !f.contents.foreignKeysHold { return Raised(VerificationFailed); }
      if !f.contents.constraintsHold { return Raised(VerificationFailed); }
      if f.contents.settings.NoSettings? || f.contents.settings.secret.Some? { return Raised(VerificationFailed); }
      o := Hazard(mayFail);
      if !o.Done? { return; }
      if Opens(f, WrongKey(key)) || Opens(f, []) { return Raised(VerificationFailed); }
      o := Hazard(mayFail);
    }

    method RecoverInterruptedMigration(mayFail: bool) returns (o: Outcome)
      requires Valid() && !prepared
      modifies this`disk, this`history
      ensures Valid() && old(history) <= history
      ensures disk.key == old(disk).key && disk.secret == old(disk).secret && disk.strays == old(disk).strays
      ensures old(disk).marker.NoMarker? ==> disk == old(disk)
      ensures old(disk).marker.Torn? ==> disk == old(disk) && !o.Done?
      ensures o.Done? && old(disk).marker.Complete? ==>
        disk == Recovered(old(disk)) || disk == RolledBack(old(disk))
      ensures o.Raised? ==> o.failure !in {Ambiguous, CannotRecover, KeyUnavailable, KeyInvalid}
      ensures !mayFail ==>
        disk == Recovered(old(disk))
        && o == if disk.marker.Torn? then Raised(StateInvalid) else Done
    {
      o := Hazard(mayFail);
      if !o.Done? || disk.marker.NoMarker? { return; }
      if disk.marker.Torn? { return Raised(StateInvalid); }
      if disk.main.Absent? && !disk.rollback.Absent? {
        o := Take(disk.(main := disk.rollback, rollback := Absent), mayFail);
        if !o.Done? { return; }
        o := RemoveTemporary(mayFail);
        if !o.Done? { return; }
      } else if disk.main.Plain? {
        if !disk.rollback.Absent? { return Raised(Ambiguous); }
        o := RemoveTemporary(mayFail);
        if !o.Done? { return; }
      } else if !disk.main.Absent? {
        o := RecoverFromEncryptedMain(mayFail);
        if !o.Done? { return; }
      } else {
        return Raised(CannotRecover);
      }
      o := Take(disk.(marker := NoMarker), mayFail);
    }

    /** The branch of recovery that finds a main file without the plaintext header beside the marker. */
    method RecoverFromEncryptedMain(mayFail: bool) returns (o: Outcome)
      requires Valid() && !prepared && !disk.main.Plain? && !disk.main.Absent? && disk.marker.Complete?
      modifies this`disk, this`history
      ensures Valid() && old(history) <= history
      ensures disk.key == old(disk).key && disk.secret == old(disk).secret && disk.strays == old(disk).strays
      ensures disk.marker.Complete?
      ensures o.Done? ==>
        || (old(disk).main.Encrypted? && disk == old(disk).(rollback := Absent, temporary := Absent))
        || (old(disk).rollback.Plain?
            && disk == old(disk).(main := old(disk).rollback, rollback := Absent, temporary := Absent))
      ensures o.Raised? ==> o.failure in {Interrupted, VerificationFailed}
      ensures !mayFail ==> o.Done? && disk == Recovered(old(disk)).(marker := Complete)
    {
      o := Hazard(mayFail);
      if !o.Done? { return; }
      var key := disk.key;
      if key.None? { return Raised(KeyUnavailable); }
      if !WellFormedKey(key.value) { return Raised(KeyInvalid); }
      o := Verify(disk.main, key.value, mayFail);
      if o.Crashed? { return; }
      if o.Raised? {
        if disk.rollback.Absent? { return; }
        o := Take(disk.(main := disk.rollback, rollback := Absent), mayFail);
        if !o.Done? { return; }
      } else if !disk.rollback.Absent? {
        o := Take(disk.(rollback := Absent), mayFail);
        if !o.Done? { return; }
      }
      o := RemoveTemporary(mayFail);
    }

    /** `secret_store.set` followed by its read-back: a store that lost the value is noticed. */
    method StoreLegacySecret(secret: string, mayFail: bool) returns (o: Outcome)
      requires Valid() && !prepared && disk.main.Plain? && disk.marker.NoMarker?
      requires disk.main.contents.LegacySecret() == Some(secret)
      modifies this`disk, this`history
      ensures Valid() && old(history) <= history
      ensures disk == old(disk).(secret := disk.secret)
      ensures o.Done? ==> disk.secret == Some(secret)
      ensures o.Raised? ==> o.failure in {Interrupted, RoundTripFailed}
      ensures !mayFail ==> o.Done?
    {
      o := Hazard(mayFail);
      if !o.Done? { return; }
      var persisted: bool := *;
      if persisted || !mayFail {
        o := Take(disk.(secret := Some(secret)), mayFail);
        if !o.Done? { return; }
      }
      if disk.secret != Some(secret) { return Raised(RoundTripFailed); }
    }

    /** `secret_store.set_if_absent` with a random key: the key already there wins. */
    method CreateDatabaseKey(mayFail: bool) returns (o: Outcome, key: Key)
      requires Valid() && !prepared && disk.marker.NoMarker? && disk.key.None?
      requires disk.main.Plain? || disk.main.Absent?
      modifies this`disk, this`history
      ensures Valid() && old(history) <= history
      ensures disk == old(disk).(key := disk.key)
      ensures o.Done? ==> disk.key == Some(key) && WellFormedKey(key)
      ensures o.Raised? ==> o.failure in {Interrupted, RoundTripFailed}
      ensures !mayFail ==> o.Done?
    {
      key := seq(32, _ => 0);
      var random: seq<int> := *;
      if |random| == 32 { key := random; }
      o := Hazard(mayFail);
      if !o.Done? { return; }
      var persisted: bool := *;
      if persisted || !mayFail {
        o := Take(disk.(key := Some(key)), mayFail);
        if !o.Done? { return; }
      }
      if disk.key != Some(key) { o := Raised(RoundTripFailed); }
    }

    /** The credential part of `_migrate_plaintext_database`: secret and key are safe before any file is made. */
    method SecureCredentials(mayFail: bool) returns (o: Outcome, key: Key)
      requires Valid() && !prepared && disk.main.Plain? && disk.marker.NoMarker?
      modifies this`disk, this`history
      ensures Valid() && old(history) <= history
      ensures disk == old(disk).(key := disk.key, secret := disk.secret)
      ensures old(disk).key.Some? ==> disk.key == old(disk).key
      ensures o.Done? ==>
        SecretKept(disk.main.contents, disk.secret) && disk.key == Some(key) && WellFormedKey(key)
      ensures o.Raised? ==> o.failure in {Interrupted, RoundTripFailed, KeyInvalid}
      ensures !mayFail ==> o == if KeyUsable(old(disk).key) then Done else Raised(KeyInvalid)
    {
      key := [];
      o := Hazard(mayFail);
      if !o.Done? { return; }
      var legacySecret := disk.main.contents.LegacySecret();
      if legacySecret.Some? && legacySecret.value != "" {
        o := StoreLegacySecret(legacySecret.value, mayFail);
        if !o.Done? { return; }
      }
      if disk.key.None? {
        o, key := CreateDatabaseKey(mayFail);
        if !o.Done? { return; }
      } else {
        key := disk.key.value;
      }
      if !WellFormedKey(key) { o := Raised(KeyInvalid); }
    }

    /** `_migrate_plaintext_database`: credentials, temporary file, the guarded part, and its handler. */
    method MigratePlaintextDatabase(mayFail: bool) returns (o: Outcome)
      requires Valid() && !prepared && disk.main.Plain? && disk.marker.NoMarker? && disk.temporary.Absent?
      modifies this`disk, this`history, this`databaseKey
      ensures Valid() && old(history) <= history
      ensures o.Done? ==> Converted(old(disk), disk) && databaseKey == disk.key
      ensures o.Raised? ==> o.failure !in {Ambiguous, CannotRecover}
      ensures !mayFail ==>
        if Convertible(old(disk).main.contents) && KeyUsable(old(disk).key) then o.Done?
        else
          && o.Raised? && disk.main == old(disk).main && disk.rollback.Absent? && disk.marker.NoMarker?
          && disk.temporary.Absent? && disk.strays == old(disk).strays
      ensures old(disk).key.Some? ==> disk.key == old(disk).key
    {
      var key: Key;
      o, key := SecureCredentials(mayFail);
      if !o.Done? { return; }
      o := Take(disk.(temporary := Unfinished), mayFail);
      if !o.Done? { return; }
      o := ReplaceByExport(key, mayFail);
      if o.Raised? {
        var cleanup := CleanUpAfterFailure(mayFail);
        if !cleanup.Done? { o := cleanup; }
      }
    }

    /** The `except BaseException` handler of the conversion. */
    method CleanUpAfterFailure(mayFail: bool) returns (o: Outcome)
      requires Valid() && !prepared && (disk.main.Absent? ==> !disk.marker.NoMarker?)
      modifies this`disk, this`history
      ensures Valid() && old(history) <= history
      ensures disk.key == old(disk).key
      ensures o.Raised? ==> o.failure !in {Ambiguous, CannotRecover}
      ensures !mayFail && old(disk).marker.Complete? && !old(disk).main.Encrypted? ==>
        o.Done? && disk == Recovered(old(disk))
    {
      o := Done;
      if !disk.marker.NoMarker? {
        o := RecoverInterruptedMigration(mayFail);
      } else if !disk.temporary.Absent? {
        o := RemoveTemporary(mayFail);
      }
    }

    /** The `try` block: marker, export, checks, then the exchange of the two files. */
    method ReplaceByExport(key: Key, mayFail: bool) returns (o: Outcome)
      requires Valid() && !prepared && disk.main.Plain? && disk.marker.NoMarker?
      requires disk.temporary.Unfinished? && disk.key == Some(key) && WellFormedKey(key)
      requires SecretKept(disk.main.contents, disk.secret)
      modifies this`disk, this`history, this`databaseKey
      ensures Valid() && old(history) <= history
      ensures disk.key == old(disk).key && disk.secret == old(disk).secret
      ensures disk.main.Absent? ==> !disk.marker.NoMarker?
      ensures o.Done? ==> Converted(old(disk), disk) && databaseKey == disk.key
      ensures o.Raised? ==> o.failure in {Interrupted, ExportMismatch, VerificationFailed}
      ensures !mayFail ==>
        if Convertible(old(disk).main.contents) then o.Done?
        else
          && o.Raised? && disk.main == old(disk).main && disk.rollback.Absent? && disk.marker.Complete?
          && disk.strays == old(disk).strays
    {
      o := WriteMarker(mayFail);
      if !o.Done? { return; }
      o := ExportToTemporary(key, mayFail);
      if !o.Done? { return; }
      o := Verify(disk.temporary, key, mayFail);
      if !o.Done? { return; }
      o := ExchangeFiles(key, mayFail);
      if o.Done? {
        databaseKey := Some(key);
      }
    }

    /** The two renames, the check of the active file, and the removal of rollback and marker. */
    method ExchangeFiles(key: Key, mayFail: bool) returns (o: Outcome)
      requires Valid() && !prepared && disk.main.Plain? && disk.marker.Complete?
      requires disk.key == Some(key) && IsExportOf(disk.temporary, disk.main.contents, disk.key)
      modifies this`disk, this`history
      ensures Valid() && old(history) <= history
      ensures disk.key == old(disk).key && disk.secret == old(disk).secret
      ensures disk.main.Absent? ==> !disk.marker.NoMarker?
      ensures o.Done? ==>
        disk == old(disk).(main := old(disk).temporary, temporary := Absent, marker := NoMarker)
      ensures o.Raised? ==> o.failure in {Interrupted, VerificationFailed}
      ensures !mayFail ==> o.Done?
    {
      o := Take(disk.(main := Absent, rollback := disk.main), mayFail);
      if !o.Done? { return; }
      var damaged: bool := *;
      var installed := if mayFail && damaged then Unfinished else disk.temporary;
      o := Take(disk.(main := installed, temporary := Absent), mayFail);
      if !o.Done? { return; }
      o := Verify(disk.main, key, mayFail);
      if !o.Done? { return; }
      o := Take(disk.(rollback := Absent), mayFail);
      if !o.Done? { return; }
      o := Take(disk.(marker := NoMarker), mayFail);
    }

    /** The marker is created empty and only then written, so a fault in between leaves it torn. */
    method WriteMarker(mayFail: bool) returns (o: Outcome)
      requires Valid() && !prepared && disk.main.Plain? && disk.marker.NoMarker?
      requires disk.temporary.Unfinished? && disk.key.Some? && WellFormedKey(disk.key.value)
      requires SecretKept(disk.main.contents, disk.secret)
      modifies this`disk, this`history
      ensures Valid() && old(history) <= history
      ensures disk == old(disk).(marker := disk.marker)
      ensures o.Done? ==> disk.marker.Complete?
      ensures o in {Done, Raised(Interrupted), Crashed}
      ensures !mayFail ==> o.Done?
    {
      o := Hazard(mayFail);
      if !o.Done? { return; }
      o := Take(disk.(marker := Torn), mayFail);
      if !o.Done? { return; }
      o := Take(disk.(marker := Complete), mayFail);
    }

    /**
     * `sqlcipher_export`, the deletion of the secret row, and the snapshot comparison.
     * A faulty export can put anything under the key; the comparison rejects it.
     */
    method ExportToTemporary(key: Key, mayFail: bool) returns (o: Outcome)
      requires Valid() && !prepared && disk.main.Plain? && disk.marker.Complete? && disk.key == Some(key)
      modifies this`disk, this`history
      ensures Valid() && old(history) <= history
      ensures disk == old(disk).(temporary := disk.temporary)
      ensures o.Done? ==> disk.temporary == Encrypted(WithoutSecret(disk.main.contents), key)
      ensures o.Done? ==> disk.main.contents.settings.Settings? && disk.main.contents.valuesSupported
      ensures o.Raised? ==> o.failure in {Interrupted, ExportMismatch}
      ensures !mayFail && Convertible(disk.main.contents) ==> o.Done?
      ensures !mayFail ==> !o.Crashed?
    {
      o := Hazard(mayFail);
      if !o.Done? { return; }
      var source := disk.main.contents;
      if !source.valuesSupported { return Raised(ExportMismatch); }
      var refused: bool := *;
      if refused && !source.constraintsHold { return Raised(ExportMismatch); }
      var exported := source;
      if mayFail { exported := *; }
      o := Take(disk.(temporary := Encrypted(exported, key)), mayFail);
      if !o.Done? { return; }
      if exported.settings.NoSettings? { return Raised(ExportMismatch); }
      o := Take(disk.(temporary := Encrypted(WithoutSecret(exported), key)), mayFail);
      if !o.Done? { return; }
      if disk.temporary.contents != WithoutSecret(source) { return Raised(ExportMismatch); }
    }

    /** `_prepare_storage` on a platform that requires encryption. */
    method PrepareStorage(mayFail: bool) returns (o: Outcome)
      requires Valid()
      modifies this
      ensures Valid() && old(history) <= history
      ensures old(prepared) ==> disk == old(disk) && o.Done?
      ensures o.Done? ==> prepared
      ensures old(disk).marker.Torn? ==> disk == Forgotten(old(disk)) && !o.Done?
      ensures o.Raised? ==> o.failure !in {Ambiguous, CannotRecover}
      ensures !mayFail && !old(prepared) ==> Settles(old(disk), disk, o)
    {
      if prepared { return Done; }
      Forget();
      o := RecoverInterruptedMigration(mayFail);
      if !o.Done? { return; }
      if disk.main.Plain? {
        o := MigratePlaintextDatabase(mayFail);
        if !o.Done? { return; }
      } else if !disk.main.Absent? {
        o := Hazard(mayFail);
        if !o.Done? { return; }
        if disk.key.None? { return Raised(KeyUnavailable); }
        if !WellFormedKey(disk.key.value) { return Raised(KeyInvalid); }
        if !disk.main.Encrypted? || disk.key.value != disk.main.key { return Raised(VerificationFailed); }
        o := Hazard(mayFail);
        if !o.Done? { return; }
        databaseKey := disk.key;
      } else {
        if disk.key.None? {
          var key;
          o, key := CreateDatabaseKey(mayFail);
          if !o.Done? { return; }
        }
        if !WellFormedKey(disk.key.value) { return Raised(KeyInvalid); }
        o := Take(disk.(main := Encrypted(EMPTY_CONTENTS, disk.key.value)), mayFail);
        if !o.Done? { return; }
        databaseKey := disk.key;
      }
      prepared := true;
    }
  }
}
