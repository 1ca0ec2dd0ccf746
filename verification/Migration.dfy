/** Store formats: the version stamp in the metadata table, and opening a
    store file at a release's version, over whole histories of opens, failures
    and crashes. */
module Migration {
  import opened Text
  import opened Bytes

  /** The tables of a database file, by name. */
  type Db = map<string, map<Bytes, Bytes>>

  const TABLE := "nexum:local-store"
  const META := "nexum:store-meta"
  // "format_version"
  const FORMAT_VERSION_KEY: Bytes := [102, 111, 114, 109, 97, 116, 95, 118, 101, 114, 115, 105, 111, 110]

  datatype FormatFound = Fresh | Unstamped | Stamped(version: nat)

  datatype FormatError =
    | Open
    | Txn
    | Commit
    | FormatTooNew(found: nat, supported: nat)
    | FormatStampUnreadable
    | MigrationFailed(from: nat, to: nat)

  /** What takes a database to the next format, or `None` if it fails. It sees
      every table, as staged so far. */
  type MigrationStep = Db -> Option<Db>

  /** What a release ships: its version, and how to get there. */
  datatype Format = Format(version: nat, steps: seq<MigrationStep>)

  /* ----- The stamp: a little-endian 32-bit number ----- */

  const TWO_TO_THE_32: nat := 0x1_0000_0000

  function ToLeBytes(n: nat): Bytes
    requires n < TWO_TO_THE_32
  {
    [(n % 256) as Byte, (n / 256 % 256) as Byte, (n / 65_536 % 256) as Byte, (n / 16_777_216) as Byte]
  }

  function FromLeBytes(b: Bytes): nat
    requires |b| == 4
  {
    b[0] as int + 256 * b[1] as int + 65_536 * b[2] as int + 16_777_216 * b[3] as int
  }

  lemma StampRoundTrip(n: nat)
    requires n < TWO_TO_THE_32
    ensures FromLeBytes(ToLeBytes(n)) == n
  {
    assert n / 65_536 == n / 256 / 256 && n / 16_777_216 == n / 65_536 / 256;
    assert n == 256 * (n / 256) + n % 256;
    assert n / 256 == 256 * (n / 65_536) + n / 256 % 256;
    assert n / 65_536 == 256 * (n / 16_777_216) + n / 65_536 % 256;
  }

  /** Byte `k` of a stamp has the weight of 256 to the power of `k`. */
  lemma StampIsLittleEndian(n: nat)
    requires n < TWO_TO_THE_32
    ensures |ToLeBytes(n)| == 4
    ensures forall k :: 0 <= k < 4 ==> ToLeBytes(n)[k] as int == n / Pow256(k) % 256
  {
    assert Pow256(1) == 256 && Pow256(2) == 65_536 && Pow256(3) == 16_777_216;
  }

  function Pow256(k: nat): (r: nat)
    ensures r > 0
  {
    if k == 0 then 1 else 256 * Pow256(k - 1)
  }

  /* ----- Opening ----- */

  function ReadFound(db: Db): Result<FormatFound, FormatError> {
    if META in db then
      if FORMAT_VERSION_KEY in db[META] && |db[META][FORMAT_VERSION_KEY]| == 4
         && FromLeBytes(db[META][FORMAT_VERSION_KEY]) != 0
      then Ok(Stamped(FromLeBytes(db[META][FORMAT_VERSION_KEY])))
      else Err(FormatStampUnreadable)
    else if TABLE in db then Ok(Unstamped)
    else Ok(Fresh)
  }

  predicate IsNewer(format: Format, found: FormatFound) {
    found.Stamped? && found.version > format.version
  }

  /** `db` with the stamp of `version`. */
  function Stamp(db: Db, version: nat): Db
    requires version < TWO_TO_THE_32
  {
    db[META := (if META in db then db[META] else map[])[FORMAT_VERSION_KEY := ToLeBytes(version)]]
  }

  /** The steps from index `i` on, in order; the step at index i takes format
      i + 1 to i + 2. */
  function RunSteps(steps: seq<MigrationStep>, i: nat, db: Db): Result<Db, FormatError>
    decreases |steps| - i
  {
    if i >= |steps| then Ok(db)
    else match steps[i](db)
      case None => Err(MigrationFailed(i + 1, i + 2))
      case Some(next) => RunSteps(steps, i + 1, next)
  }

  /** What one undisturbed open makes of a database. */
  function Upgrade(format: Format, db: Db): Result<Db, FormatError>
    requires format.version < TWO_TO_THE_32
  {
    match ReadFound(db)
    case Err(e) => Err(e)
    case Ok(found) =>
      if IsNewer(format, found) then Err(FormatTooNew(found.version, format.version))
      else if found == Stamped(format.version) then Ok(db)
      else
        var laidOut :=
          match found
          case Fresh => Ok(db[TABLE := map[]])
          case Unstamped => RunSteps(format.steps, 0, db)
          case Stamped(version) => RunSteps(format.steps, version - 1, db);
        match laidOut
        case Err(e) => Err(e)
        case Ok(next) => Ok(Stamp(next, format.version))
  }

  /** How the database library answers one open: the call that fails, if any. */
  datatype OpenIo = Fine | ProbeFails | CreateFails | TxnFails | CommitFails

  /** A database file. `writes` counts the writable handles it has had, each of
      which rewrites the file. */
  class StoreFile {
    var db: Db
    var present: bool
    var clean: bool
    var writes: nat

    ghost predicate Valid()
      reads this
    {
      !present ==> db == map[]
    }

    /** A file as it lies on disk; `clean` is false after an unclean shutdown,
        when only a writable handle can repair and read it. */
    constructor (db: Db, present: bool, clean: bool)
      requires !present ==> db == map[]
      ensures Valid() && this.db == db && this.present == present && this.clean == clean && writes == 0
    {
      this.db, this.present, this.clean, writes := db, present, clean, 0;
    }

    /** Open or create the file and bring it to `format`. */
    method OpenAt(format: Format, io: OpenIo) returns (r: Result<FormatFound, FormatError>)
      requires Valid() && 1 <= format.version < TWO_TO_THE_32
      modifies this
      ensures Valid()
      // All of the upgrade or none of it, and the stamp goes with the layout.
      ensures if r.Ok? then Upgrade(format, old(db)) == Ok(db) else db == old(db)
      ensures r.Ok? ==> Ok(r.value) == ReadFound(old(db))
      ensures io.Fine? ==> (r.Err? <==> Upgrade(format, old(db)).Err?)
      ensures io.Fine? && r.Err? ==> r.error == Upgrade(format, old(db)).error
      // A newer stamp that the probe can read is refused before anything is written.
      ensures !io.ProbeFails? && old(present && clean && ReadFound(db).Ok? && IsNewer(format, ReadFound(db).value)) ==>
                r == Err(FormatTooNew(old(ReadFound(db).value.version), format.version)) && unchanged(this)
      // Reopening at the stamped version leaves the tables alone.
      ensures old(ReadFound(db)) == Ok(Stamped(format.version)) ==> db == old(db)
    {
      hide RunSteps, Stamp;
      if present {
        if io.ProbeFails? {
          return Err(Open);
        }
        if clean {
          var found := ReadFound(db);
          if found.Err? {
            return Err(found.error);
          }
          if IsNewer(format, found.value) {
            return Err(FormatTooNew(found.value.version, format.version));
          }
        }
      }
      if io.CreateFails? {
        return Err(Open);
      }
      present, clean, writes := true, true, writes + 1;
      var read := ReadFound(db);
      if read.Err? {
        return Err(read.error);
      }
      var found := read.value;
      if IsNewer(format, found) {
        return Err(FormatTooNew(found.version, format.version));
      }
      var from: Option<nat> := None;
      match found {
        case Stamped(version) =>
          if version == format.version {
            return Ok(found);
          }
          from := Some(version);
        case Unstamped => from := Some(1);
        case Fresh => from := None;
      }
      if io.TxnFails? {
        return Err(Txn);
      }
      var staged := db;
      match from {
        case Some(from) =>
          var migrated := Migrate(format, db, from);
          if migrated.Err? {
            return Err(migrated.error);
          }
          staged := migrated.value;
        case None => staged := staged[TABLE := map[]];
      }
      staged := Stamp(staged, format.version);
      if io.CommitFails? {
        return Err(Commit);
      }
      db := staged;
      return Ok(found);
    }
  }

  /** Take a database at version `from` through the steps it lacks. */
  method Migrate(format: Format, db: Db, from: nat) returns (r: Result<Db, FormatError>)
    requires from >= 1
    ensures r == RunSteps(format.steps, from - 1, db)
  {
    var staged := db;
    var i := from - 1;
    while i < |format.steps|
      invariant from - 1 <= i
      invariant RunSteps(format.steps, from - 1, db) == RunSteps(format.steps, i, staged)
    {
      match format.steps[i](staged) {
        case None => return Err(MigrationFailed(i + 1, i + 2));
        case Some(next) => staged := next;
      }
      i := i + 1;
    }
    return Ok(staged);
  }

  /* ----- Releases that share a step list ----- */

  /** The release of `version`: it ships the first steps of the common list, one
      per version below its own. */
  function Release(steps: seq<MigrationStep>, version: nat): Format
    requires 1 <= version <= |steps| + 1
  {
    Format(version, steps[..version - 1])
  }

  /** Two databases that differ at most in the stamp. */
  predicate SameButStamp(a: Db, b: Db) {
    Stamp(a, 1) == Stamp(b, 1)
  }

  /** A step that cannot tell stamps apart: from databases that differ at most in
      the stamp it fails alike, or gives databases that differ at most in it. */
  ghost predicate StampBlind(step: MigrationStep) {
    forall a: Db, b: Db :: SameButStamp(a, b) ==> Alike(step(a), step(b))
  }

  predicate Alike(x: Option<Db>, y: Option<Db>) {
    (x.Some? <==> y.Some?) && (x.Some? && y.Some? ==> SameButStamp(x.value, y.value))
  }

  predicate SameRun(x: Result<Db, FormatError>, y: Result<Db, FormatError>) {
    match x
    case Err(e) => y == Err(e)
    case Ok(d) => y.Ok? && SameButStamp(d, y.value)
  }

  /** Short enough that every release's version fits the stamp. */
  predicate Short(steps: seq<MigrationStep>) {
    |steps| + 1 < TWO_TO_THE_32
  }

  ghost predicate Lineage(steps: seq<MigrationStep>) {
    Short(steps) && forall i :: 0 <= i < |steps| ==> StampBlind(steps[i])
  }

  /** A stamp replaces the one before it. */
  lemma LastStampWins(d: Db, v: nat, w: nat)
    requires v < TWO_TO_THE_32 && w < TWO_TO_THE_32
    ensures Stamp(Stamp(d, v), w) == Stamp(d, w)
  {
    hide ToLeBytes;
    var meta := if META in d then d[META] else map[];
    var x, y := ToLeBytes(v), ToLeBytes(w);
    assert meta[FORMAT_VERSION_KEY := x][FORMAT_VERSION_KEY := y] == meta[FORMAT_VERSION_KEY := y];
    assert d[META := meta[FORMAT_VERSION_KEY := x]][META := meta[FORMAT_VERSION_KEY := y]]
        == d[META := meta[FORMAT_VERSION_KEY := y]];
  }

  /** Any stamp hides the same differences. */
  lemma StampHides(a: Db, b: Db, v: nat)
    requires v < TWO_TO_THE_32
    ensures Stamp(a, v) == Stamp(b, v) <==> SameButStamp(a, b)
  {
    hide Stamp;
    LastStampWins(a, v, 1);
    LastStampWins(b, v, 1);
    LastStampWins(a, 1, v);
    LastStampWins(b, 1, v);
  }

  /** Migrating in two stretches is migrating in one. */
  lemma {:induction false} RunStepsComposes(steps: seq<MigrationStep>, i: nat, m: nat, n: nat, db: Db)
    requires i <= m <= n <= |steps|
    ensures RunSteps(steps[..n], i, db)
         == match RunSteps(steps[..m], i, db) case Err(e) => Err(e) case Ok(d) => RunSteps(steps[..n], m, d)
    decreases m - i
  {
    if i < m {
      match steps[i](db)
      case None =>
      case Some(next) => RunStepsComposes(steps, i + 1, m, n, next);
    }
  }

  /** A stamp is read back as the version it was written for. */
  lemma StampIsRead(db: Db, version: nat)
    requires 1 <= version < TWO_TO_THE_32
    ensures ReadFound(Stamp(db, version)) == Ok(Stamped(version))
  {
    StampRoundTrip(version);
  }

  /** After an open that lands, the store is at the release's version, and a
      second open changes nothing. */
  lemma UpgradeLandsAtVersion(format: Format, db: Db)
    requires 1 <= format.version < TWO_TO_THE_32 && Upgrade(format, db).Ok?
    ensures ReadFound(Upgrade(format, db).value) == Ok(Stamped(format.version))
    ensures Upgrade(format, Upgrade(format, db).value) == Upgrade(format, db)
  {
    hide RunSteps;
    if ReadFound(db) != Ok(Stamped(format.version)) {
      var next :=
        match ReadFound(db).value
        case Fresh => db[TABLE := map[]]
        case Unstamped => RunSteps(format.steps, 0, db).value
        case Stamped(version) => RunSteps(format.steps, version - 1, db).value;
      StampIsRead(next, format.version);
    }
  }

  predicate Holds(table: map<Bytes, Bytes>, key: Bytes, value: Bytes) {
    key in table && table[key] == value
  }

  /** `db` has a table by that name, with that entry. */
  predicate HasEntry(db: Db, table: string, key: string, value: Bytes) {
    table in db && Holds(db[table], Encode(key), value)
  }

  /** What a file is found as, by what it holds: nothing, only the data table, or
      under `format_version` four bytes of a number that is not zero, the least
      significant first. Anything else is unreadable. */
  lemma FoundExactly(db: Db, version: nat)
    ensures ReadFound(db) == Ok(Fresh) <==> "nexum:store-meta" !in db && "nexum:local-store" !in db
    ensures ReadFound(db) == Ok(Unstamped) <==> "nexum:store-meta" !in db && "nexum:local-store" in db
    ensures ReadFound(db) == Ok(Stamped(version)) <==>
              version > 0 && exists a: Byte, b: Byte, c: Byte, d: Byte ::
                HasEntry(db, "nexum:store-meta", "format_version", [a, b, c, d])
                && version == a as int + 256 * b as int + 65_536 * c as int + 16_777_216 * d as int
    ensures ReadFound(db).Err? ==> ReadFound(db).error == FormatStampUnreadable
  {
    hide Encode;
    KeyIsItsName();
    if META in db && FORMAT_VERSION_KEY in db[META] && |db[META][FORMAT_VERSION_KEY]| == 4 {
      var stamp := db[META][FORMAT_VERSION_KEY];
      assert stamp == [stamp[0], stamp[1], stamp[2], stamp[3]];
      assert HasEntry(db, "nexum:store-meta", "format_version", [stamp[0], stamp[1], stamp[2], stamp[3]]);
    }
  }

  lemma KeyIsItsName()
    ensures FORMAT_VERSION_KEY == Encode("format_version")
  {
    hide Encode;
    EncodeAscii("format_version");
    assert FORMAT_VERSION_KEY == AsciiBytes("format_version");
  }

  /** A file stamped `[v, 0, 0, 0]` is at version `v`. */
  lemma SmallStamp(db: Db, v: nat)
    requires 1 <= v < 256 && HasEntry(db, "nexum:store-meta", "format_version", [v as Byte, 0, 0, 0])
    ensures ReadFound(db) == Ok(Stamped(v))
  {
    hide Encode;
    KeyIsItsName();
  }

  /** A release lays a new file out as an empty data table and its stamp. */
  lemma NewFileIsLaidOut(steps: seq<MigrationStep>, version: nat)
    requires 1 <= version < 256 && version <= |steps| + 1
    ensures Upgrade(Release(steps, version), map[])
         == Ok(map["nexum:local-store" := map[],
                   "nexum:store-meta" := map[Encode("format_version") := [version as Byte, 0, 0, 0]]])
  {
    hide Encode, RunSteps;
    KeyIsItsName();
    assert ToLeBytes(version) == [version as Byte, 0, 0, 0];
    hide ToLeBytes;
    var none: Db := map[];
    assert Upgrade(Release(steps, version), none) == Ok(Stamp(none[TABLE := map[]], version));
  }

  /** The store exists: something was written to it before. */
  predicate Existing(db: Db) {
    ReadFound(db).Ok? && !ReadFound(db).value.Fresh?
  }

  function VersionOf(db: Db): nat
    requires Existing(db)
  {
    if ReadFound(db).value.Stamped? then ReadFound(db).value.version else 1
  }

  /** The upgrade of an existing store is its steps and then the stamp. */
  lemma UpgradeIsStepsAndStamp(steps: seq<MigrationStep>, v: nat, db: Db)
    requires Short(steps) && 1 <= v <= |steps| + 1 && Existing(db) && VersionOf(db) <= v
    ensures ReadFound(db) != Ok(Stamped(v)) ==>
              Upgrade(Release(steps, v), db)
                == match RunSteps(steps[..v - 1], VersionOf(db) - 1, db)
                   case Err(e) => Err(e)
                   case Ok(d) => Ok(Stamp(d, v))
  {
    hide RunSteps, Stamp;
  }

  /** Whatever the steps are, stopping at release `v` on the way to `w` makes no
      difference exactly when the steps between them run alike with and without
      the stamp of `v`. */
  lemma StopIsHarmless(steps: seq<MigrationStep>, db: Db, v: nat, w: nat)
    requires Short(steps) && 1 <= v < w <= |steps| + 1
    requires Existing(db) && ReadFound(db) != Ok(Stamped(v)) && Upgrade(Release(steps, v), db).Ok?
    ensures RunSteps(steps[..v - 1], VersionOf(db) - 1, db).Ok?
    ensures
      var d := RunSteps(steps[..v - 1], VersionOf(db) - 1, db).value;
      Upgrade(Release(steps, w), Upgrade(Release(steps, v), db).value) == Upgrade(Release(steps, w), db)
      <==> SameRun(RunSteps(steps[..w - 1], v - 1, Stamp(d, v)), RunSteps(steps[..w - 1], v - 1, d))
  {
    hide RunSteps, Stamp, SameButStamp;
    UpgradeLandsAtVersion(Release(steps, v), db);
    UpgradeIsStepsAndStamp(steps, v, db);
    UpgradeIsStepsAndStamp(steps, w, db);
    var from := VersionOf(db) - 1;
    var d := RunSteps(steps[..v - 1], from, db).value;
    UpgradeIsStepsAndStamp(steps, w, Stamp(d, v));
    RunStepsComposes(steps, from, v - 1, w - 1, db);
    var stopped, direct := RunSteps(steps[..w - 1], v - 1, Stamp(d, v)), RunSteps(steps[..w - 1], v - 1, d);
    if stopped.Ok? && direct.Ok? {
      StampHides(stopped.value, direct.value, w);
    }
  }

  /** An existing store comes to `d` at release `v` without stopping on the way. */
  predicate Reaches(steps: seq<MigrationStep>, db: Db, v: nat, d: Db) {
    && 1 <= v <= |steps| + 1
    && Existing(db) && VersionOf(db) <= v && ReadFound(db) != Ok(Stamped(v))
    && RunSteps(steps[..v - 1], VersionOf(db) - 1, db) == Ok(d)
  }

  /** Each step treats what an existing store brings to it alike with and without
      the stamp of its release. */
  ghost predicate StampsDoNotMatter(steps: seq<MigrationStep>)
    requires Short(steps)
  {
    forall db: Db, v: nat, d: Db :: Reaches(steps, db, v, d) && v <= |steps| ==>
      Alike(steps[v - 1](Stamp(d, v)), steps[v - 1](d))
  }

  ghost predicate StopAgrees(steps: seq<MigrationStep>, db: Db, v: nat, w: nat)
    requires Short(steps) && 1 <= v <= |steps| + 1 && 1 <= w <= |steps| + 1
  {
    Upgrade(Release(steps, v), db).Ok? ==>
      Upgrade(Release(steps, w), Upgrade(Release(steps, v), db).value) == Upgrade(Release(steps, w), db)
  }

  /** Upgrading any existing store through any release on the way to a later one
      gives what one direct open gives. */
  ghost predicate StopsAreHarmless(steps: seq<MigrationStep>)
    requires Short(steps)
  {
    forall db: Db, v: nat, w: nat :: Existing(db) && 1 <= v < w <= |steps| + 1 ==> StopAgrees(steps, db, v, w)
  }

  /** The exact condition on the steps, for every list of them. */
  lemma HarmlessExactly(steps: seq<MigrationStep>)
    requires Short(steps)
    ensures StopsAreHarmless(steps) <==> StampsDoNotMatter(steps)
  {
    hide StopAgrees, Reaches, Alike, Existing, Stamp;
    if StopsAreHarmless(steps) {
      forall db: Db, v: nat, d: Db | Reaches(steps, db, v, d) && v <= |steps|
        ensures 1 <= v && Alike(steps[v - 1](Stamp(d, v)), steps[v - 1](d))
      {
        ReachesIsExisting(steps, db, v, d);
        assert StopAgrees(steps, db, v, v + 1);
        StopTellsAlike(steps, db, v, d);
      }
    }
    if StampsDoNotMatter(steps) {
      forall db: Db, v: nat, w: nat | Existing(db) && 1 <= v < w <= |steps| + 1
        ensures StopAgrees(steps, db, v, w)
      {
        AlikeMakesHarmless(steps, db, v, w);
      }
    }
  }

  lemma ReachesIsExisting(steps: seq<MigrationStep>, db: Db, v: nat, d: Db)
    requires Reaches(steps, db, v, d)
    ensures Existing(db) && 1 <= v <= |steps| + 1
  {
  }

  /** One step, as a run. */
  lemma RunOfOne(steps: seq<MigrationStep>, v: nat, d: Db)
    requires 1 <= v <= |steps|
    ensures RunSteps(steps[..v], v - 1, d)
         == match steps[v - 1](d) case None => Err(MigrationFailed(v, v + 1)) case Some(next) => Ok(next)
  {
    assert steps[..v][v - 1] == steps[v - 1];
    assert steps[v - 1](d).Some? ==> RunSteps(steps[..v], v, steps[v - 1](d).value) == Ok(steps[v - 1](d).value);
  }

  /** A harmless stop at `v` on the way to the next release tells that the step
      between them treats the two alike. */
  lemma StopTellsAlike(steps: seq<MigrationStep>, db: Db, v: nat, d: Db)
    requires Short(steps) && v <= |steps| && Reaches(steps, db, v, d) && StopAgrees(steps, db, v, v + 1)
    ensures Alike(steps[v - 1](Stamp(d, v)), steps[v - 1](d))
  {
    hide RunSteps, Stamp, SameButStamp, ReadFound;
    UpgradeIsStepsAndStamp(steps, v, db);
    StopIsHarmless(steps, db, v, v + 1);
    RunOfOne(steps, v, d);
    RunOfOne(steps, v, Stamp(d, v));
  }

  lemma AlikeMakesHarmless(steps: seq<MigrationStep>, db: Db, v: nat, w: nat)
    requires Short(steps) && StampsDoNotMatter(steps) && Existing(db) && 1 <= v < w <= |steps| + 1
    ensures StopAgrees(steps, db, v, w)
  {
    hide RunSteps, Stamp, SameRun, StampsDoNotMatter;
    if Upgrade(Release(steps, v), db).Ok? && ReadFound(db) != Ok(Stamped(v)) {
      StopIsHarmless(steps, db, v, w);
      var d := RunSteps(steps[..v - 1], VersionOf(db) - 1, db).value;
      RunsStayAlike(steps, db, v, w, d);
    }
  }

  /** By induction on the releases that are left: what the step makes of the
      stamped store is again what an existing store comes to. */
  lemma {:induction false} RunsStayAlike(steps: seq<MigrationStep>, db: Db, v: nat, w: nat, d: Db)
    requires Short(steps) && StampsDoNotMatter(steps) && v < w <= |steps| + 1 && Reaches(steps, db, v, d)
    ensures SameRun(RunSteps(steps[..w - 1], v - 1, Stamp(d, v)), RunSteps(steps[..w - 1], v - 1, d))
    decreases w - v
  {
    hide RunSteps, Stamp, SameButStamp, StampsDoNotMatter, Reaches;
    assert 1 <= v by { ReachesIsExisting(steps, db, v, d); }
    var x, y := steps[v - 1](Stamp(d, v)), steps[v - 1](d);
    StepIsAlike(steps, db, v, d);
    FirstStep(steps, v, w, Stamp(d, v));
    FirstStep(steps, v, w, d);
    if y.Some? && v + 1 == w {
      NoStepsLeft(steps, v, x.value);
      NoStepsLeft(steps, v, y.value);
    } else if y.Some? {
      var a, b := x.value, y.value;
      StampedReaches(steps, v, d, a);
      ReachesNext(steps, db, v, d, b);
      RunsStayAlike(steps, Stamp(d, v), v + 1, w, a);
      RunsStayAlike(steps, db, v + 1, w, b);
      StampHides(a, b, v + 1);
      assert Stamp(a, v + 1) == Stamp(b, v + 1);
      SameRunsMeet(RunSteps(steps[..w - 1], v, Stamp(a, v + 1)), RunSteps(steps[..w - 1], v, a),
                   RunSteps(steps[..w - 1], v, b));
    }
  }

  lemma StepIsAlike(steps: seq<MigrationStep>, db: Db, v: nat, d: Db)
    requires Short(steps) && StampsDoNotMatter(steps) && v <= |steps| && Reaches(steps, db, v, d)
    ensures 1 <= v && Alike(steps[v - 1](Stamp(d, v)), steps[v - 1](d))
  {
  }

  lemma FirstStep(steps: seq<MigrationStep>, v: nat, w: nat, d: Db)
    requires 1 <= v < w <= |steps| + 1
    ensures RunSteps(steps[..w - 1], v - 1, d)
         == match steps[v - 1](d)
            case None => Err(MigrationFailed(v, v + 1))
            case Some(next) => RunSteps(steps[..w - 1], v, next)
  {
    assert steps[..w - 1][v - 1] == steps[v - 1];
  }

  lemma NoStepsLeft(steps: seq<MigrationStep>, v: nat, d: Db)
    requires v <= |steps|
    ensures RunSteps(steps[..v], v, d) == Ok(d)
  {
  }

  lemma StampedReaches(steps: seq<MigrationStep>, v: nat, d: Db, a: Db)
    requires Short(steps) && 1 <= v <= |steps| && steps[v - 1](Stamp(d, v)) == Some(a)
    ensures Reaches(steps, Stamp(d, v), v + 1, a)
  {
    hide Stamp;
    StampIsRead(d, v);
    RunOfOne(steps, v, Stamp(d, v));
  }

  lemma ReachesNext(steps: seq<MigrationStep>, db: Db, v: nat, d: Db, b: Db)
    requires Reaches(steps, db, v, d) && v <= |steps| && steps[v - 1](d) == Some(b)
    ensures Reaches(steps, db, v + 1, b)
  {
    hide RunSteps;
    RunStepsComposes(steps, VersionOf(db) - 1, v - 1, v, db);
    RunOfOne(steps, v, d);
  }

  lemma SameRunsMeet(x: Result<Db, FormatError>, y: Result<Db, FormatError>, z: Result<Db, FormatError>)
    requires SameRun(x, y) && SameRun(x, z)
    ensures SameRun(y, z)
  {
    hide Stamp;
  }

  /** With steps that cannot tell stamps apart, stopping at an intermediate
      release makes no difference: upgrading through it gives the very tables and
      stamp, or the very failure, of one direct open. */
  lemma PathIndependent(steps: seq<MigrationStep>, db: Db, v: nat, w: nat)
    requires Lineage(steps) && 1 <= v <= w <= |steps| + 1
    requires Existing(db) && Upgrade(Release(steps, v), db).Ok?
    ensures Upgrade(Release(steps, w), Upgrade(Release(steps, v), db).value) == Upgrade(Release(steps, w), db)
  {
    hide Upgrade, Existing, StampsDoNotMatter, StampBlind;
    UpgradeLandsAtVersion(Release(steps, v), db);
    BlindStepsAreAlike(steps);
    HarmlessExactly(steps);
    assert v < w ==> StopAgrees(steps, db, v, w);
  }

  lemma BlindStepsAreAlike(steps: seq<MigrationStep>)
    requires Lineage(steps)
    ensures StampsDoNotMatter(steps)
  {
    hide Stamp, Alike, Reaches, SameButStamp;
    forall db: Db, v: nat, d: Db | Reaches(steps, db, v, d) && v <= |steps|
      ensures 1 <= v && Alike(steps[v - 1](Stamp(d, v)), steps[v - 1](d))
    {
      ReachesIsExisting(steps, db, v, d);
      assert StampBlind(steps[v - 1]);
      StampIsHidden(d, v);
    }
  }

  lemma StampIsHidden(d: Db, v: nat)
    requires v < TWO_TO_THE_32
    ensures SameButStamp(Stamp(d, v), d)
  {
    LastStampWins(d, v, 1);
  }

  /** A step may use the metadata table: one that writes another of its keys cannot
      tell stamps apart. */
  lemma MetadataStepIsBlind(key: Bytes, value: Bytes)
    requires key != FORMAT_VERSION_KEY
    ensures StampBlind((d: Db) => Some(WriteMeta(d, key, value)))
  {
    hide Stamp, WriteMeta;
    forall a: Db, b: Db | SameButStamp(a, b)
      ensures SameButStamp(WriteMeta(a, key, value), WriteMeta(b, key, value))
    {
      WritesCommute(a, key, value);
      WritesCommute(b, key, value);
    }
  }

  function WriteMeta(d: Db, key: Bytes, value: Bytes): Db {
    d[META := (if META in d then d[META] else map[])[key := value]]
  }

  lemma WritesCommute(d: Db, key: Bytes, value: Bytes)
    requires key != FORMAT_VERSION_KEY
    ensures Stamp(WriteMeta(d, key, value), 1) == WriteMeta(Stamp(d, 1), key, value)
  {
    hide ToLeBytes;
    var meta := if META in d then d[META] else map[];
    var x := ToLeBytes(1);
    assert meta[key := value][FORMAT_VERSION_KEY := x] == meta[FORMAT_VERSION_KEY := x][key := value];
  }

  /** The condition on steps is needed: a step that looks for the metadata table
      can tell a store that stopped at an earlier release. */
  lemma BlindnessMatters() returns (steps: seq<MigrationStep>, db: Db)
    ensures |steps| == 2 && Existing(db)
    ensures Upgrade(Release(steps, 2), db).Ok? && Upgrade(Release(steps, 3), db).Ok?
    ensures Upgrade(Release(steps, 3), Upgrade(Release(steps, 2), db).value) != Upgrade(Release(steps, 3), db)
  {
    var quiet: MigrationStep := d => Some(d);
    var nosy: MigrationStep := d => if META in d then Some(d[TABLE := map[[] := []]]) else Some(d);
    steps, db := [quiet, nosy], map[TABLE := map[]];
    var mid := Stamp(db, 2);
    assert steps[..1] == [quiet] && steps[..2] == steps;
    assert RunSteps([quiet], 0, db) == Ok(db);
    StampIsRead(db, 2);
    assert Upgrade(Release(steps, 2), db) == Ok(mid);
    assert nosy(db) == Some(db) && RunSteps(steps, 2, db) == Ok(db);
    assert RunSteps(steps, 1, db) == Ok(db);
    assert RunSteps(steps, 0, db) == Ok(db);
    assert RunSteps(steps, 1, mid) == Ok(mid[TABLE := map[[] := []]]);
    var direct, staged := Stamp(db, 3), Stamp(mid[TABLE := map[[] := []]], 3);
    assert direct[TABLE] == map[];
    assert [] in staged[TABLE];
  }

  /* ----- Histories ----- */

  /** One attempt to open: by which release, and how it went. */
  datatype Attempt =
    | Completes(version: nat)
    | Fails(version: nat)      // an error from the library, at any point before the commit
    | Crashes(version: nat, landed: bool)   // the process dies before or after the commit

  predicate ValidAttempt(steps: seq<MigrationStep>, a: Attempt) {
    1 <= a.version <= |steps| + 1
  }

  predicate ValidAttempts(steps: seq<MigrationStep>, attempts: seq<Attempt>) {
    Short(steps) && forall i :: 0 <= i < |attempts| ==> ValidAttempt(steps, attempts[i])
  }

  /** The attempt commits an upgrade. */
  predicate Lands(steps: seq<MigrationStep>, db: Db, a: Attempt)
    requires Short(steps) && ValidAttempt(steps, a)
  {
    (a.Completes? || (a.Crashes? && a.landed)) && Upgrade(Release(steps, a.version), db).Ok?
  }

  /** The tables on disk after the attempts. */
  function History(steps: seq<MigrationStep>, db: Db, attempts: seq<Attempt>): Db
    requires ValidAttempts(steps, attempts)
  {
    if attempts == [] then db
    else
      var before, last := History(steps, db, attempts[..|attempts| - 1]), attempts[|attempts| - 1];
      if Lands(steps, before, last) then Upgrade(Release(steps, last.version), before).value else before
  }

  /** The version of the last attempt that landed; zero when none has. */
  function Landed(steps: seq<MigrationStep>, db: Db, attempts: seq<Attempt>): (v: nat)
    requires ValidAttempts(steps, attempts)
    ensures v <= |steps| + 1
  {
    if attempts == [] then 0
    else
      var init, last := attempts[..|attempts| - 1], attempts[|attempts| - 1];
      if Lands(steps, History(steps, db, init), last) then last.version else Landed(steps, db, init)
  }

  /** The version of the first attempt that landed; zero when none has. */
  function Created(steps: seq<MigrationStep>, db: Db, attempts: seq<Attempt>): (v: nat)
    requires ValidAttempts(steps, attempts)
    ensures v <= |steps| + 1
  {
    if attempts == [] then 0
    else
      var init, last := attempts[..|attempts| - 1], attempts[|attempts| - 1];
      if Created(steps, db, init) != 0 then Created(steps, db, init)
      else if Lands(steps, History(steps, db, init), last) then last.version
      else 0
  }

  /** The store is `origin` while nothing has landed, and from then on exactly what
      one direct open by the release that landed last gives. */
  predicate Whole(steps: seq<MigrationStep>, origin: Db, landed: nat, db: Db)
    requires Short(steps) && landed <= |steps| + 1
  {
    if landed == 0 then db == origin else Upgrade(Release(steps, landed), origin) == Ok(db)
  }

  /** A release refuses what a later one has upgraded. */
  lemma OlderIsRefused(steps: seq<MigrationStep>, origin: Db, v: nat, w: nat)
    requires Short(steps) && 1 <= w < v <= |steps| + 1 && Upgrade(Release(steps, v), origin).Ok?
    ensures Upgrade(Release(steps, w), Upgrade(Release(steps, v), origin).value) == Err(FormatTooNew(v, w))
  {
    UpgradeLandsAtVersion(Release(steps, v), origin);
    hide RunSteps, Stamp;
  }

  /** What an open by release `w` makes of a store whose last landing was `v`. */
  lemma OpenOfWhole(steps: seq<MigrationStep>, origin: Db, v: nat, db: Db, w: nat)
    requires Lineage(steps) && Existing(origin) && v <= |steps| + 1 && Whole(steps, origin, v, db)
    requires 1 <= w <= |steps| + 1
    ensures Upgrade(Release(steps, w), db)
         == if v > w then Err(FormatTooNew(v, w)) else Upgrade(Release(steps, w), origin)
  {
    hide Upgrade, Existing, StampBlind;
    if 1 <= v <= w {
      PathIndependent(steps, origin, v, w);
    } else if v > w {
      OlderIsRefused(steps, origin, v, w);
    }
  }

  /** Through any history of completed, failed and crashed opens by any releases
      in any order, an existing store is never left between versions. */
  lemma {:induction false} HistoryIsWhole(steps: seq<MigrationStep>, origin: Db, attempts: seq<Attempt>)
    requires Lineage(steps) && Existing(origin) && ValidAttempts(steps, attempts)
    ensures Whole(steps, origin, Landed(steps, origin, attempts), History(steps, origin, attempts))
  {
    hide Upgrade, Existing, StampBlind;
    if attempts != [] {
      var init, last := attempts[..|attempts| - 1], attempts[|attempts| - 1];
      HistoryIsWhole(steps, origin, init);
      OpenOfWhole(steps, origin, Landed(steps, origin, init), History(steps, origin, init), last.version);
    }
  }

  /** Whatever happened before, a release older than the last that landed is
      refused, and any other gets exactly what it would have got at the start. */
  lemma RetryIsDirect(steps: seq<MigrationStep>, origin: Db, attempts: seq<Attempt>, w: nat)
    requires Lineage(steps) && Existing(origin) && ValidAttempts(steps, attempts) && 1 <= w <= |steps| + 1
    ensures
      var landed := Landed(steps, origin, attempts);
      Upgrade(Release(steps, w), History(steps, origin, attempts))
        == if landed > w then Err(FormatTooNew(landed, w)) else Upgrade(Release(steps, w), origin)
  {
    HistoryIsWhole(steps, origin, attempts);
    OpenOfWhole(steps, origin, Landed(steps, origin, attempts), History(steps, origin, attempts), w);
  }

  /** The release that creates a store lays it out at its own version. */
  function Laid(steps: seq<MigrationStep>, origin: Db, created: nat): (laid: Db)
    requires Short(steps) && 1 <= created <= |steps| + 1 && ReadFound(origin) == Ok(Fresh)
    ensures Upgrade(Release(steps, created), origin) == Ok(laid)
  {
    Stamp(origin[TABLE := map[]], created)
  }

  lemma LaidExists(steps: seq<MigrationStep>, origin: Db, created: nat)
    requires Short(steps) && 1 <= created <= |steps| + 1 && ReadFound(origin) == Ok(Fresh)
    ensures Existing(Laid(steps, origin, created))
    ensures Upgrade(Release(steps, created), Laid(steps, origin, created)) == Ok(Laid(steps, origin, created))
  {
    UpgradeLandsAtVersion(Release(steps, created), origin);
  }

  /** From a new file: it stays new until a release creates the store, and from
      then on it is that release's empty layout, upgraded directly by the release
      that landed last. */
  lemma {:induction false} FreshHistoryIsWhole(steps: seq<MigrationStep>, origin: Db, attempts: seq<Attempt>)
    requires Lineage(steps) && ReadFound(origin) == Ok(Fresh) && ValidAttempts(steps, attempts)
    ensures
      var created, landed := Created(steps, origin, attempts), Landed(steps, origin, attempts);
      && (created == 0 <==> landed == 0)
      && Whole(steps, if created == 0 then origin else Laid(steps, origin, created), landed,
               History(steps, origin, attempts))
  {
    hide Upgrade, Existing, StampBlind, ReadFound, Laid;
    if attempts != [] {
      var init, last := attempts[..|attempts| - 1], attempts[|attempts| - 1];
      FreshHistoryIsWhole(steps, origin, init);
      var created := Created(steps, origin, init);
      if created == 0 {
        LaidExists(steps, origin, last.version);
      } else {
        LaidExists(steps, origin, created);
        var laid := Laid(steps, origin, created);
        OpenOfWhole(steps, laid, Landed(steps, origin, init), History(steps, origin, init), last.version);
      }
    }
  }

  /** Which release creates the store matters, even with steps that cannot tell
      stamps apart: the steps run on a store created before them and not on one
      created after. */
  lemma CreatorMatters() returns (steps: seq<MigrationStep>)
    ensures |steps| == 1 && Lineage(steps)
    ensures Upgrade(Release(steps, 1), map[]).Ok?
    ensures Upgrade(Release(steps, 2), Upgrade(Release(steps, 1), map[]).value) != Upgrade(Release(steps, 2), map[])
  {
    var step: MigrationStep := d => Some(d[TABLE := map[[] := []]]);
    steps := [step];
    forall a: Db, b: Db | SameButStamp(a, b)
      ensures Alike(step(a), step(b))
    {
      TableIsNotMeta(a);
      TableIsNotMeta(b);
    }
    assert StampBlind(step);
    var laid := Laid(steps, map[], 1);
    LaidExists(steps, map[], 1);
    UpgradeLandsAtVersion(Release(steps, 1), map[]);
    assert steps[..1] == steps;
    UpgradeIsStepsAndStamp(steps, 2, laid);
    RunOfOne(steps, 1, laid);
    assert [] in Stamp(laid[TABLE := map[[] := []]], 2)[TABLE];
    assert [] !in Laid(steps, map[], 2)[TABLE];
  }

  lemma TableIsNotMeta(d: Db)
    ensures Stamp(d[TABLE := map[[] := []]], 1) == Stamp(d, 1)[TABLE := map[[] := []]]
  {
    hide ToLeBytes;
    assert TABLE != META by { assert TABLE[6] == 'l' && META[6] == 's'; }
  }
}
