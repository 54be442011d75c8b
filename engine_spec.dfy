/** The recognition engine as a state and the transitions its operations make
    on it: matching a face against residents and active visitors, creating a
    visitor, the access cooldown, the expiry sweep, the startup reloads and the
    per-frame dispatch. The class in module `Engine` performs each transition
    step by step and is proved equal to the function here. */
module EngineSpec {
  import opened Common
  import opened Utils
  import opened Store
  import opened VisitTable

  /** Python's `hash(encoding.tobytes())`, an oracle like the distance. */
  type HashFn = Encoding -> int

  /** What the engine consults but does not own: the face distance, the
      encoding hash and the configuration it was started with. */
  datatype Env = Env(dist: DistanceFn, hash: HashFn, config: Config)

  /** `stats_sesion`. */
  datatype Stats = Stats(detectedResidents: set<string>, visitsRegistered: nat, totalDetections: nat)

  /** Everything the engine's operations read or change: the resident
      snapshot (`nombres_vecinos`, `encodings_vecinos`), the visitor table
      (`visitas_activas`), the cooldown table (`ultimo_reconocimiento`), the
      session counters, the pictures present in the visitors' directory, the
      frame counter, the time of the last sweep, and the database. */
  datatype State = State(names: seq<string>, encodings: seq<Encoding>, visits: seq<Visit>,
                         lastRecorded: map<string, int>, stats: Stats, images: set<string>,
                         frames: nat, lastCleanup: int, db: Tables)

  /** Directory of visitor pictures, as `os.path.join` prefixes it. */
  const VisitDir: string := "dataset/visitas/"
  /** A visitor expires after this many seconds without being seen. */
  const TtlSeconds: int := VisitMinutes * 60
  /** Two accesses of one label are logged at least this many seconds apart. */
  const CooldownSeconds: int := 30
  /** The frame loop sweeps expired visitors once this many seconds have passed. */
  const CleanupSeconds: int := 120
  /** The label `procesar_nueva_visita` answers when it fails. */
  const ErrorLabel: string := "Visita_Error"

  /** Every entry of the visitor table sits under the hash of its encoding. */
  ghost predicate KeyedByHash(env: Env, t: seq<Visit>) {
    forall v :: v in t ==> v.key == env.hash(v.encoding)
  }

  /** What every operation keeps: parallel resident lists, one entry per
      key, entries keyed by their hash, and valid tables. */
  ghost predicate Inv(env: Env, s: State) {
    && |s.names| == |s.encodings|
    && KeysDistinct(s.visits)
    && KeyedByHash(env, s.visits)
    && TablesValid(s.db)
  }

  /** The engine as `__init__` leaves it, with the frame loop's sweep clock
      started. */
  function InitialState(db: Tables, startedAt: int): (s: State)
    ensures s.visits == [] && s.lastRecorded == map[] && s.stats == Stats({}, 0, 0)
    ensures forall env: Env :: TablesValid(db) ==> Inv(env, s)
  {
    State([], [], [], map[], Stats({}, 0, 0), {}, 0, startedAt, db)
  }

  // ---------------------------------------------------------------------
  // Configuration as the engine reads it
  // ---------------------------------------------------------------------

  /** `config.get('tolerancia_reconocimiento', 0.5)` as `<=` can use it.
      A number is the tolerance. Compared with a numpy distance, a list
      broadcasts: a one-element list acts as its element, and any other list
      has no truth value, so the comparison raises, as it does for text;
      those give `None`. */
  function Tolerance(config: Config): (r: Option<real>)
    ensures "tolerancia_reconocimiento" !in config ==> r == Some(RecognitionTolerance)
    ensures "tolerancia_reconocimiento" in config && config["tolerancia_reconocimiento"].Int? ==>
      r == Some(config["tolerancia_reconocimiento"].i as real)
    ensures "tolerancia_reconocimiento" in config && config["tolerancia_reconocimiento"].Real? ==>
      r == Some(config["tolerancia_reconocimiento"].r)
    ensures "tolerancia_reconocimiento" in config && config["tolerancia_reconocimiento"].IntList? &&
            |config["tolerancia_reconocimiento"].items| == 1 ==>
      r == Some(config["tolerancia_reconocimiento"].items[0] as real)
    ensures r.None? <==> "tolerancia_reconocimiento" in config &&
                         (config["tolerancia_reconocimiento"].Text? ||
                          (config["tolerancia_reconocimiento"].IntList? && |config["tolerancia_reconocimiento"].items| != 1))
  {
    if "tolerancia_reconocimiento" !in config then Some(RecognitionTolerance)
    else match config["tolerancia_reconocimiento"]
      case Int(i) => Some(i as real)
      case Real(x) => Some(x)
      case IntList(items) => if |items| == 1 then Some(items[0] as real) else None
      case Text(_) => None
  }

  /** `config.get('procesar_cada_n_frames', 3)` as `%` can use it: `None`
      when the value is not an integer. */
  function FrameStride(config: Config): (r: Option<int>)
    ensures "procesar_cada_n_frames" !in config ==> r == Some(3)
    ensures "procesar_cada_n_frames" in config && config["procesar_cada_n_frames"].Int? ==>
      r == Some(config["procesar_cada_n_frames"].i)
    ensures r.Some? <==> "procesar_cada_n_frames" !in config || config["procesar_cada_n_frames"].Int?
  {
    if "procesar_cada_n_frames" !in config then Some(3)
    else match config["procesar_cada_n_frames"]
      case Int(n) => Some(n)
      case _ => None
  }

  // ---------------------------------------------------------------------
  // Matching (`reconocer_persona`)
  // ---------------------------------------------------------------------

  /** `fr.face_distance(encodings, probe)`. */
  function Distances(dist: DistanceFn, encodings: seq<Encoding>, q: Encoding): (ds: seq<real>)
    ensures |ds| == |encodings|
    ensures forall i :: 0 <= i < |ds| ==> ds[i] == dist(encodings[i], q)
  {
    seq(|encodings|, i requires 0 <= i < |encodings| => dist(encodings[i], q))
  }

  /** `np.argmin`: a position holding the least value, the first such. */
  function FirstArgMin(ds: seq<real>): (i: nat)
    requires |ds| > 0
    ensures i < |ds|
    ensures forall j :: 0 <= j < |ds| ==> ds[i] <= ds[j]
    ensures forall j :: 0 <= j < i ==> ds[i] < ds[j]
  {
    if |ds| == 1 then 0
    else
      var k := FirstArgMin(ds[..|ds| - 1]);
      if ds[|ds| - 1] < ds[k] then |ds| - 1 else k
  }

  /** The library can compare the probe with every resident encoding. */
  predicate ResidentsComparable(encodings: seq<Encoding>, q: Encoding) {
    forall i :: 0 <= i < |encodings| ==> |encodings[i]| == |q|
  }

  /** The resident stage raises: a length mismatch in `face_distance`, or a
      tolerance that cannot be compared with a distance. */
  predicate ResidentStageFails(env: Env, s: State, q: Encoding) {
    |s.encodings| > 0 && (!ResidentsComparable(s.encodings, q) || Tolerance(env.config).None?)
  }

  /** Some resident lies within the configured tolerance. */
  ghost predicate ResidentHit(env: Env, s: State, q: Encoding) {
    && ResidentsComparable(s.encodings, q)
    && Tolerance(env.config).Some?
    && exists i :: 0 <= i < |s.encodings| && env.dist(s.encodings[i], q) <= Tolerance(env.config).value
  }

  /** `comparar_caras` accepts the visitor for this probe. */
  predicate VisitorMatches(dist: DistanceFn, v: Visit, q: Encoding) {
    CompareFaces(dist, v.encoding, q).0
  }

  /** The first entry of the table, in insertion order, that matches. */
  function FirstVisitorMatch(dist: DistanceFn, t: seq<Visit>, q: Encoding): (r: Option<nat>)
    ensures r.Some? ==> r.value < |t| && VisitorMatches(dist, t[r.value], q)
    ensures r.Some? ==> forall j :: 0 <= j < r.value ==> !VisitorMatches(dist, t[j], q)
    ensures r.None? ==> forall j :: 0 <= j < |t| ==> !VisitorMatches(dist, t[j], q)
  {
    if t == [] then None
    else match FirstVisitorMatch(dist, t[..|t| - 1], q)
      case Some(j) => Some(j)
      case None => if VisitorMatches(dist, t[|t| - 1], q) then Some(|t| - 1) else None
  }

  /** Who the engine takes a face to be. */
  datatype Recognition = ResidentMatch(index: nat, distance: real) | VisitorMatch(index: nat, distance: real) | NoMatch

  /** The decision of `reconocer_persona`. Residents come first: the nearest
      one (the first of equally near ones) is taken when it lies within the
      configured tolerance. Only otherwise is the visitor table scanned, and
      its first entry within the fixed 0.5 threshold is taken. An error in the
      resident stage ends the call with no match and no scan. */
  function Classify(env: Env, s: State, q: Encoding): (r: Recognition)
    ensures ResidentStageFails(env, s, q) ==> r.NoMatch?
    ensures r.ResidentMatch? ==>
      && ResidentHit(env, s, q)
      && r.index < |s.names| && r.index < |s.encodings|
      && r.distance == env.dist(s.encodings[r.index], q)
      && r.distance <= Tolerance(env.config).value
      && (forall j :: 0 <= j < |s.encodings| ==> r.distance <= env.dist(s.encodings[j], q))
      && (forall j :: 0 <= j < r.index ==> r.distance < env.dist(s.encodings[j], q))
    ensures ResidentHit(env, s, q) && |s.names| == |s.encodings| ==> r.ResidentMatch?
    ensures r.VisitorMatch? ==>
      && !ResidentStageFails(env, s, q) && !ResidentHit(env, s, q)
      && r.index < |s.visits|
      && VisitorMatches(env.dist, s.visits[r.index], q)
      && r.distance == env.dist(s.visits[r.index].encoding, q)
      && (forall j :: 0 <= j < r.index ==> !VisitorMatches(env.dist, s.visits[j], q))
    ensures (&& !ResidentStageFails(env, s, q) && !ResidentHit(env, s, q)
             && exists j :: 0 <= j < |s.visits| && VisitorMatches(env.dist, s.visits[j], q)) ==> r.VisitorMatch?
  {
    if ResidentStageFails(env, s, q) then NoMatch
    else
      var ds := Distances(env.dist, s.encodings, q);
      if |ds| > 0 && ds[FirstArgMin(ds)] <= Tolerance(env.config).value then
        var i := FirstArgMin(ds);
        if i < |s.names| then ResidentMatch(i, ds[i]) else NoMatch
      else
        assert !ResidentHit(env, s, q);
        match FirstVisitorMatch(env.dist, s.visits, q)
        case Some(j) => VisitorMatch(j, CompareFaces(env.dist, s.visits[j].encoding, q).1)
        case None => NoMatch
  }

  /** The `(nombre, es_vecino, distancia)` triple. */
  datatype Outcome = Outcome(name: Option<string>, isResident: bool, distance: real)

  /** `"Visita_" + nombre_archivo[:8]`. */
  function VisitorLabel(fileName: string): string {
    "Visita_" + fileName[..if |fileName| < 8 then |fileName| else 8]
  }

  /** `reconocer_persona` with its effect: a resident or no match changes
      nothing; a visitor match refreshes that one entry's last sighting. */
  function Recognize(env: Env, s: State, q: Encoding, now: int): (r: (State, Outcome))
    ensures match Classify(env, s, q)
      case ResidentMatch(i, d) => r == (s, Outcome(Some(s.names[i]), true, d))
      case VisitorMatch(j, d) =>
        && r.0 == s.(visits := Touch(s.visits, j, now))
        && r.1 == Outcome(Some(VisitorLabel(s.visits[j].fileName)), false, d)
      case NoMatch => r == (s, Outcome(None, false, 1.0))
    ensures Inv(env, s) ==> Inv(env, r.0)
  {
    match Classify(env, s, q)
    case ResidentMatch(i, d) => (s, Outcome(Some(s.names[i]), true, d))
    case VisitorMatch(j, d) =>
      TouchKeepsKeys(env, s.visits, j, now);
      (s.(visits := Touch(s.visits, j, now)), Outcome(Some(VisitorLabel(s.visits[j].fileName)), false, d))
    case NoMatch => (s, Outcome(None, false, 1.0))
  }

  lemma TouchKeepsKeys(env: Env, t: seq<Visit>, j: nat, now: int)
    requires j < |t|
    ensures KeyedByHash(env, t) ==> KeyedByHash(env, Touch(t, j, now))
  {
    var r := Touch(t, j, now);
    forall v | v in r ensures v == r[j] || v in t {
      var i :| 0 <= i < |r| && r[i] == v;
      if i != j { assert v == t[i]; }
    }
  }

  /** A face nobody matches is reported as unknown and changes nothing; a
      matched visitor keeps its place in the table and its key. */
  lemma {:induction false} RecognizeTouchesOnlyTheMatch(env: Env, s: State, q: Encoding, now: int)
    ensures var r := Recognize(env, s, q, now);
      && (r.1.name.None? ==> r.0 == s && r.1 == Outcome(None, false, 1.0))
      && (r.1.isResident ==> r.0 == s)
      && r.0 == s.(visits := r.0.visits)
      && Keys(r.0.visits) == Keys(s.visits)
      && (forall i :: 0 <= i < |s.visits| ==>
            r.0.visits[i] == s.visits[i] ||
            (r.0.visits[i] == s.visits[i].(lastSeen := now) && r.1.name == Some(VisitorLabel(s.visits[i].fileName))))
  {
    match Classify(env, s, q)
    case ResidentMatch(i, d) =>
    case VisitorMatch(j, d) =>
    case NoMatch =>
  }

  // ---------------------------------------------------------------------
  // New visitors (`procesar_nueva_visita`)
  // ---------------------------------------------------------------------

  /** `(top, right, bottom, left)` of a face in frame coordinates. */
  datatype Region = Region(top: nat, right: nat, bottom: nat, left: nat)

  function Min(a: nat, b: nat): nat {
    if a < b then a else b
  }

  /** `frame[top:bottom, left:right]` of a frame of that height and width
      holds no pixel; writing it then raises. */
  predicate CropEmpty(region: Region, height: nat, width: nat) {
    || Min(region.bottom, height) <= Min(region.top, height)
    || Min(region.right, width) <= Min(region.left, width)
  }

  /** The visitor entry a new face gets: no database id, entered and last seen now. */
  function NewEntry(env: Env, q: Encoding, fileName: string, now: int): Visit {
    Visit(env.hash(q), None, fileName, q, now, now)
  }

  /** `procesar_nueva_visita`. The picture is saved under a name taken from
      the clock; the database insert is attempted and its answer ignored; the
      table gets an entry under the probe's hash, replacing any entry already
      there; exactly one visitor entry event is logged with the picture's
      path; the visitor count grows by one. Cooldowns are neither read nor
      written. An empty crop makes the save fail first, and nothing changes. */
  function NewVisit(env: Env, s: State, q: Encoding, region: Region, height: nat, width: nat,
                    clock: DateTime, now: int): (r: (State, string))
    requires ValidDateTime(clock)
    ensures Inv(env, s) ==> Inv(env, r.0)
  {
    if CropEmpty(region, height, width) then (s, ErrorLabel)
    else
      var f := VisitFileName(clock);
      (AddVisitor(env, s, q, f, now), VisitorLabel(f))
  }

  /** The writes of a new visit once its picture `f` is saved. */
  function AddVisitor(env: Env, s: State, q: Encoding, f: string, now: int): (r: State)
    ensures Inv(env, s) ==> Inv(env, r)
  {
    var db1 := InsertVisit(s.db, f, q, now).0;
    var db2 := InsertAccess(db1, VisitorLabel(f), Visitor, Entry, now, Some(VisitDir + f)).0;
    s.(images := s.images + {f}, db := db2,
       visits := Put(s.visits, NewEntry(env, q, f, now)),
       stats := s.stats.(visitsRegistered := s.stats.visitsRegistered + 1))
  }

  /** What a new visit does, as listed above. */
  lemma NewVisitEffect(env: Env, s: State, q: Encoding, region: Region, height: nat, width: nat,
                       clock: DateTime, now: int)
    requires ValidDateTime(clock)
    ensures var r := NewVisit(env, s, q, region, height, width, clock, now);
      && (CropEmpty(region, height, width) ==> r == (s, ErrorLabel))
      && (!CropEmpty(region, height, width) ==>
            var f := VisitFileName(clock);
            && r.1 == VisitorLabel(f)
            && r.0.visits == Put(s.visits, NewEntry(env, q, f, now))
            && r.0.db.visits == InsertVisit(s.db, f, q, now).0.visits
            && r.0.db.accesses ==
               s.db.accesses + [AccessRow(s.db.nextAccessId, VisitorLabel(f), Visitor, Entry, now, Some(VisitDir + f))]
            && r.0.db.residents == s.db.residents
            && r.0.images == s.images + {f}
            && r.0.stats == s.stats.(visitsRegistered := s.stats.visitsRegistered + 1)
            && r.0.lastRecorded == s.lastRecorded
            && r.0.names == s.names && r.0.encodings == s.encodings
            && r.0.frames == s.frames && r.0.lastCleanup == s.lastCleanup)
  {
  }

  /** Every visitor created in one millennium gets the same label, so all of
      them share a single cooldown entry. */
  lemma {:induction false} VisitorLabelShared(a: DateTime, b: DateTime)
    requires ValidDateTime(a) && ValidDateTime(b) && a.year / 1000 == b.year / 1000
    ensures VisitorLabel(VisitFileName(a)) == VisitorLabel(VisitFileName(b))
    ensures VisitorLabel(VisitFileName(a)) == "Visita_visita_" + [Digit(a.year / 1000)]
  {
    assert VisitFileName(a)[..8] == "visita_" + [Digit(a.year / 1000)];
    assert VisitFileName(b)[..8] == "visita_" + [Digit(b.year / 1000)];
  }

  // ---------------------------------------------------------------------
  // Access cooldown (`actualizar_ultimo_acceso`)
  // ---------------------------------------------------------------------

  /** The label was never logged, or was logged at least 30 seconds ago. */
  predicate CooldownAllows(lastRecorded: map<string, int>, name: string, now: int) {
    name !in lastRecorded || now - lastRecorded[name] >= CooldownSeconds
  }

  /** `actualizar_ultimo_acceso`: inside the cooldown nothing changes;
      otherwise one entry event is logged, the label's time becomes now, and
      a resident joins the detected set. */
  function RecordAccess(s: State, name: string, isResident: bool, now: int): (r: State)
    ensures !CooldownAllows(s.lastRecorded, name, now) ==> r == s
    ensures CooldownAllows(s.lastRecorded, name, now) ==>
      && r.db.accesses == s.db.accesses +
           [AccessRow(s.db.nextAccessId, name, if isResident then Resident else Visitor, Entry, now, None)]
      && r.db.residents == s.db.residents && r.db.visits == s.db.visits
      && r.lastRecorded == s.lastRecorded[name := now]
      && r.stats == s.stats.(detectedResidents := s.stats.detectedResidents + (if isResident then {name} else {}))
      && r == s.(db := r.db, lastRecorded := r.lastRecorded, stats := r.stats)
    ensures forall env :: Inv(env, s) ==> Inv(env, r)
  {
    if !CooldownAllows(s.lastRecorded, name, now) then s
    else
      var db := InsertAccess(s.db, name, if isResident then Resident else Visitor, Entry, now, None).0;
      var stats := if isResident then s.stats.(detectedResidents := s.stats.detectedResidents + {name}) else s.stats;
      s.(db := db, lastRecorded := s.lastRecorded[name := now], stats := stats)
  }

  /** After a label is logged, a second sighting of it (or, for visitors, of
      any visitor of the same millennium) less than 30 seconds later logs
      nothing. */
  lemma {:induction false} CooldownSuppressesRepeat(s: State, a: DateTime, b: DateTime, t1: int, t2: int)
    requires ValidDateTime(a) && ValidDateTime(b) && a.year / 1000 == b.year / 1000
    requires CooldownAllows(s.lastRecorded, VisitorLabel(VisitFileName(a)), t1)
    requires t1 <= t2 < t1 + CooldownSeconds
    ensures var s1 := RecordAccess(s, VisitorLabel(VisitFileName(a)), false, t1);
      && |s1.db.accesses| == |s.db.accesses| + 1
      && RecordAccess(s1, VisitorLabel(VisitFileName(b)), false, t2) == s1
  {
    VisitorLabelShared(a, b);
  }

  // ---------------------------------------------------------------------
  // Expiry sweep (`limpiar_visitas_expiradas`)
  // ---------------------------------------------------------------------

  /** Unseen for strictly more than the lifetime. */
  predicate Expired(v: Visit, now: int) {
    now - v.lastSeen > TtlSeconds
  }

  /** The entries that survive a sweep, in table order. */
  function Survivors(t: seq<Visit>, now: int): (r: seq<Visit>)
    ensures forall v :: v in r <==> v in t && !Expired(v, now)
  {
    if t == [] then []
    else
      assert forall w :: w in t <==> w == t[0] || w in t[1..];
      (if Expired(t[0], now) then [] else [t[0]]) + Survivors(t[1..], now)
  }

  /** The expired entries in the order the sweep meets them. */
  function ExpiredEntries(t: seq<Visit>, now: int): (e: seq<Visit>)
    ensures |e| <= |t|
    ensures forall v :: v in e <==> v in t && Expired(v, now)
  {
    if t == [] then []
    else
      var init, last := t[..|t| - 1], t[|t| - 1];
      assert t == init + [last];
      ExpiredEntries(init, now) + (if Expired(last, now) then [last] else [])
  }

  /** The files of a list of entries. */
  function FilesOf(t: seq<Visit>): (files: set<string>)
    ensures forall f :: f in files <==> exists v :: v in t && v.fileName == f
  {
    set v | v in t :: v.fileName
  }

  lemma FilesOfSnoc(t: seq<Visit>, v: Visit)
    ensures FilesOf(t + [v]) == FilesOf(t) + {v.fileName}
  {
    assert forall w :: w in t + [v] <==> w in t || w == v;
  }

  function KeySet(ks: seq<int>): set<int> {
    set k | k in ks
  }

  /** Some entry of `t` carries database id `id`. */
  predicate CarriesId(t: seq<Visit>, id: int) {
    exists v :: v in t && v.id == Some(id)
  }

  /** The database side of the sweep: for each expired entry in table order,
      the writes of `SweepEntry`. */
  function SweepDb(db: Tables, t: seq<Visit>, now: int): (r: Tables)
    ensures TablesValid(db) ==> TablesValid(r)
  {
    if t == [] then db
    else
      var d := SweepDb(db, t[..|t| - 1], now);
      if Expired(t[|t| - 1], now) then SweepEntry(d, t[|t| - 1], now) else d
  }

  /** What the sweep writes: one visitor exit event per expired entry, in
      table order, after the existing rows; and the row of every expired
      entry that carries a database id deactivated. Entries created in this
      session carry none, so their rows stay active. Nothing else changes. */
  lemma {:induction false} SweepDbEffect(db: Tables, t: seq<Visit>, now: int)
    ensures var r, e := SweepDb(db, t, now), ExpiredEntries(t, now);
      && r.residents == db.residents
      && r.nextResidentId == db.nextResidentId && r.nextVisitId == db.nextVisitId
      && |r.accesses| == |db.accesses| + |e|
      && r.accesses[..|db.accesses|] == db.accesses
      && r.nextAccessId == db.nextAccessId + |e|
      && (forall k :: 0 <= k < |e| ==>
            r.accesses[|db.accesses| + k] ==
            AccessRow(db.nextAccessId + k, VisitorLabel(e[k].fileName), Visitor, Exit, now, None))
      && |r.visits| == |db.visits|
      && (forall i :: 0 <= i < |db.visits| ==>
            r.visits[i] == if CarriesId(e, db.visits[i].id) then db.visits[i].(active := false) else db.visits[i])
  {
    if t != [] {
      var init, v := t[..|t| - 1], t[|t| - 1];
      SweepDbEffect(db, init, now);
      var e := ExpiredEntries(t, now);
      var e0 := ExpiredEntries(init, now);
      if Expired(v, now) {
        assert e == e0 + [v];
        forall x ensures CarriesId(e, x) <==> CarriesId(e0, x) || v.id == Some(x) {
          if CarriesId(e, x) {
            var w :| w in e && w.id == Some(x);
            assert w in e0 || w == v;
          }
          if CarriesId(e0, x) {
            var w :| w in e0 && w.id == Some(x);
            assert w in e;
          }
          if v.id == Some(x) { assert v in e; }
        }
      } else {
        assert e == e0;
      }
    }
  }

  /** The database side of the sweep for one expired entry: its exit event,
      then its deactivation when it carries an id. */
  function SweepEntry(db: Tables, v: Visit, now: int): (r: Tables)
    ensures r == db.(accesses := r.accesses, nextAccessId := r.nextAccessId, visits := r.visits)
    ensures r.accesses == db.accesses + [AccessRow(db.nextAccessId, VisitorLabel(v.fileName), Visitor, Exit, now, None)]
    ensures r.nextAccessId == db.nextAccessId + 1
    ensures r.visits == if v.id.Some? then DeactivateId(db.visits, v.id.value) else db.visits
    ensures TablesValid(db) ==> TablesValid(r)
  {
    var d1 := InsertAccess(db, VisitorLabel(v.fileName), Visitor, Exit, now, None).0;
    if v.id.Some? then DeactivateVisitRow(d1, v.id.value).0 else d1
  }

  /** What the sweep's first pass has produced after some entries: the
      database, the pictures left, and the keys collected for deletion. */
  datatype Pass = Pass(db: Tables, images: set<string>, removed: seq<int>)

  /** The first pass over `t`, entry by entry. */
  function FirstPass(db: Tables, images: set<string>, t: seq<Visit>, now: int): (p: Pass)
    ensures TablesValid(db) ==> TablesValid(p.db)
  {
    if t == [] then Pass(db, images, [])
    else FirstPassStep(FirstPass(db, images, t[..|t| - 1], now), t[|t| - 1], now)
  }

  /** One entry of the first pass. */
  function FirstPassStep(p: Pass, v: Visit, now: int): (r: Pass)
    ensures TablesValid(p.db) ==> TablesValid(r.db)
  {
    if Expired(v, now) then Pass(SweepEntry(p.db, v, now), p.images - {v.fileName}, p.removed + [v.key])
    else p
  }

  /** The first pass over `i + 1` entries is the pass over `i` and one more. */
  lemma FirstPassPrefix(db: Tables, images: set<string>, t: seq<Visit>, i: nat, now: int)
    requires i < |t|
    ensures FirstPass(db, images, t[..i + 1], now) == FirstPassStep(FirstPass(db, images, t[..i], now), t[i], now)
  {
    assert t[..i + 1][..i] == t[..i];
  }

  /** The first pass writes what `SweepDb` prescribes, deletes the pictures of
      the expired entries and collects their keys in table order. */
  lemma {:induction false} FirstPassIsSweep(db: Tables, images: set<string>, t: seq<Visit>, now: int)
    ensures FirstPass(db, images, t, now) ==
      Pass(SweepDb(db, t, now), images - FilesOf(ExpiredEntries(t, now)), Keys(ExpiredEntries(t, now)))
  {
    if t != [] {
      var init, last := t[..|t| - 1], t[|t| - 1];
      var e := ExpiredEntries(init, now);
      if Expired(last, now) {
        assert ExpiredEntries(t, now) == e + [last];
        FilesOfSnoc(e, last);
        KeysSnoc(e, last);
      }
      FirstPassIsSweep(db, images, init, now);
    }
  }

  /** `limpiar_visitas_expiradas`: the exit events and deactivations above,
      the pictures of expired entries deleted, and then every expired key
      removed from the table. */
  function Sweep(s: State, now: int): (r: State)
    ensures r.db == SweepDb(s.db, s.visits, now)
    ensures r.images == s.images - FilesOf(ExpiredEntries(s.visits, now))
    ensures KeysDistinct(s.visits) ==> r.visits == Survivors(s.visits, now)
    ensures r == s.(visits := r.visits, db := r.db, images := r.images)
    ensures forall env :: Inv(env, s) ==> Inv(env, r)
  {
    var e := ExpiredEntries(s.visits, now);
    RemoveExpiredIsSurvivors(s.visits, now);
    s.(visits := RemoveKeys(s.visits, KeySet(Keys(e))),
       db := SweepDb(s.db, s.visits, now),
       images := s.images - FilesOf(e))
  }

  /** Deleting a set of keys that holds exactly the keys of the expired
      entries leaves the survivors. */
  lemma {:induction false} RemoveKeysFilter(t: seq<Visit>, ks: set<int>, now: int)
    requires forall i :: 0 <= i < |t| ==> (t[i].key in ks <==> Expired(t[i], now))
    ensures RemoveKeys(t, ks) == Survivors(t, now)
  {
    if t != [] {
      RemoveKeysFilter(t[1..], ks, now);
    }
  }

  lemma {:induction false} RemoveExpiredIsSurvivors(t: seq<Visit>, now: int)
    ensures KeysDistinct(t) ==> RemoveKeys(t, KeySet(Keys(ExpiredEntries(t, now)))) == Survivors(t, now)
  {
    if !KeysDistinct(t) { return; }
    var e := ExpiredEntries(t, now);
    var ks := KeySet(Keys(e));
    forall i | 0 <= i < |t| ensures t[i].key in ks <==> Expired(t[i], now) {
      if t[i].key in ks {
        var m :| 0 <= m < |e| && Keys(e)[m] == t[i].key;
        assert e[m] in e;
        var j :| 0 <= j < |t| && t[j] == e[m];
        assert j == i;
      }
      if Expired(t[i], now) {
        assert t[i] in e;
        var m :| 0 <= m < |e| && e[m] == t[i];
        assert Keys(e)[m] == t[i].key;
      }
    }
    RemoveKeysFilter(t, ks, now);
  }

  /** The sweep's contract as the engine promises it: an entry stays exactly
      when it was seen within the lifetime (an entry exactly at the lifetime
      stays), one exit event is logged per removed entry, and the database
      rows deactivated are exactly those of removed entries that carry an id. */
  lemma {:induction false} SweepEvictsExactlyExpired(env: Env, s: State, now: int)
    requires Inv(env, s)
    ensures var r := Sweep(s, now);
      && (forall v :: v in r.visits <==> v in s.visits && now - v.lastSeen <= TtlSeconds)
      && (forall v :: v in s.visits && now - v.lastSeen == TtlSeconds ==> v in r.visits)
      && |r.db.accesses| == |s.db.accesses| + (|s.visits| - |r.visits|)
      && |r.db.visits| == |s.db.visits|
      && (forall i :: 0 <= i < |s.db.visits| ==>
            (r.db.visits[i].active <==>
             s.db.visits[i].active && !exists v :: v in s.visits && Expired(v, now) && v.id == Some(s.db.visits[i].id)))
  {
    var e := ExpiredEntries(s.visits, now);
    SplitCount(s.visits, now);
    SweepDbEffect(s.db, s.visits, now);
    forall i | 0 <= i < |s.db.visits|
      ensures CarriesId(e, s.db.visits[i].id) <==>
              exists v :: v in s.visits && Expired(v, now) && v.id == Some(s.db.visits[i].id)
    {
    }
  }

  /** Expired and surviving entries split the table. */
  lemma {:induction false} SplitCount(t: seq<Visit>, now: int)
    ensures |ExpiredEntries(t, now)| + |Survivors(t, now)| == |t|
  {
    if t != [] {
      var init, last := t[..|t| - 1], t[|t| - 1];
      assert init + [last] == t;
      SplitCount(init, now);
      SurvivorsAppend(init, last, now);
    }
  }

  lemma {:induction false} SurvivorsAppend(t: seq<Visit>, v: Visit, now: int)
    ensures Survivors(t + [v], now) == Survivors(t, now) + (if Expired(v, now) then [] else [v])
  {
    if t != [] {
      assert (t + [v])[1..] == t[1..] + [v];
      SurvivorsAppend(t[1..], v, now);
    }
  }

  // ---------------------------------------------------------------------
  // Startup reloads
  // ---------------------------------------------------------------------

  /** `cargar_vecinos_conocidos`: the snapshot is rebuilt from the active
      resident rows, in their order. */
  function LoadResidents(s: State): (r: State)
    ensures var rows := ActiveResidentRows(s.db.residents);
      && |r.names| == |rows| && |r.encodings| == |rows|
      && (forall i :: 0 <= i < |rows| ==> r.names[i] == rows[i].1 && r.encodings[i] == rows[i].2)
    ensures forall n :: n in r.names <==>
      exists i :: 0 <= i < |s.db.residents| && s.db.residents[i].active && s.db.residents[i].name == n
    ensures r == s.(names := r.names, encodings := r.encodings)
    ensures forall env :: Inv(env, s) ==> Inv(env, r)
  {
    var rows := ActiveResidentRows(s.db.residents);
    var names := seq(|rows|, i requires 0 <= i < |rows| => rows[i].1);
    var encodings := seq(|rows|, i requires 0 <= i < |rows| => rows[i].2);
    assert forall n :: n in names <==> exists x :: x in rows && x.1 == n by {
      forall n ensures n in names <==> exists x :: x in rows && x.1 == n {
        if n in names {
          var i :| 0 <= i < |names| && names[i] == n;
          assert rows[i] in rows;
        }
        if exists x :: x in rows && x.1 == n {
          var x :| x in rows && x.1 == n;
          var i :| 0 <= i < |rows| && rows[i] == x;
          assert names[i] == n;
        }
      }
    }
    s.(names := names, encodings := encodings)
  }

  /** A persisted visitor older than the lifetime at startup. */
  predicate Stale(row: VisitTuple, now: int) {
    now - row.3 > TtlSeconds
  }

  /** The entry a persisted visitor is reloaded as: its id kept, last seen
      when it entered. */
  function Reloaded(env: Env, row: VisitTuple): Visit {
    Visit(env.hash(row.2), Some(row.0), row.1, row.2, row.3, row.3)
  }

  /** Row `j` is loaded and no later loaded row has the same key, so its
      entry is the one left under that key. */
  predicate LastLoadedUnderKey(env: Env, rows: seq<VisitTuple>, j: nat, now: int)
    requires j < |rows|
  {
    && !Stale(rows[j], now)
    && forall k :: j < k < |rows| && !Stale(rows[k], now) ==> env.hash(rows[k].2) != env.hash(rows[j].2)
  }

  /** The loop of `cargar_visitas_temporales` over the fetched rows: a stale
      visitor is deactivated and its picture deleted; any other is put in
      the table. */
  function ReloadRows(env: Env, s: State, rows: seq<VisitTuple>, now: int): (r: State)
    ensures Inv(env, s) ==> Inv(env, r)
  {
    if rows == [] then s
    else ReloadRow(env, ReloadRows(env, s, rows[..|rows| - 1], now), rows[|rows| - 1], now)
  }

  /** One row of that loop. */
  function ReloadRow(env: Env, s: State, row: VisitTuple, now: int): (r: State)
    ensures Inv(env, s) ==> Inv(env, r)
  {
    if Stale(row, now) then s.(db := DeactivateVisitRow(s.db, row.0).0, images := s.images - {row.1})
    else s.(visits := Put(s.visits, Reloaded(env, row)))
  }

  /** The reload of the first `i + 1` rows is the reload of the first `i`
      followed by row `i`. */
  lemma ReloadRowsStep(env: Env, s: State, rows: seq<VisitTuple>, i: nat, now: int)
    requires i < |rows|
    ensures ReloadRows(env, s, rows[..i + 1], now) == ReloadRow(env, ReloadRows(env, s, rows[..i], now), rows[i], now)
  {
    assert rows[..i + 1][..i] == rows[..i];
  }

  /** The reload changes only the visitor table, the pictures and the
      `activa` flags of visit rows. */
  lemma {:induction false} ReloadFrame(env: Env, s: State, rows: seq<VisitTuple>, now: int)
    ensures var r := ReloadRows(env, s, rows, now);
      && r == s.(visits := r.visits, db := r.db, images := r.images)
      && r.db == s.db.(visits := r.db.visits)
      && |r.db.visits| == |s.db.visits|
      && forall i :: 0 <= i < |s.db.visits| ==> r.db.visits[i] == s.db.visits[i].(active := r.db.visits[i].active)
  {
    if rows != [] {
      ReloadFrame(env, s, rows[..|rows| - 1], now);
    }
  }

  /** The picture files of the stale fetched rows. */
  function StaleFiles(rows: seq<VisitTuple>, now: int): set<string> {
    set j | 0 <= j < |rows| && Stale(rows[j], now) :: rows[j].1
  }

  /** The reload deletes exactly the pictures of the stale fetched rows. */
  lemma {:induction false} ReloadDeletesStalePictures(env: Env, s: State, rows: seq<VisitTuple>, now: int)
    ensures ReloadRows(env, s, rows, now).images == s.images - StaleFiles(rows, now)
  {
    if rows != [] {
      var init, last := rows[..|rows| - 1], rows[|rows| - 1];
      ReloadDeletesStalePictures(env, s, init, now);
      StaleFilesSnoc(rows, now);
    }
  }

  lemma StaleFilesSnoc(rows: seq<VisitTuple>, now: int)
    requires rows != []
    ensures var init, last := rows[..|rows| - 1], rows[|rows| - 1];
      StaleFiles(rows, now) == StaleFiles(init, now) + (if Stale(last, now) then {last.1} else {})
  {
    var init, last := rows[..|rows| - 1], rows[|rows| - 1];
    assert forall j :: 0 <= j < |init| ==> init[j] == rows[j];
    forall f | f in StaleFiles(rows, now)
      ensures f in StaleFiles(init, now) + (if Stale(last, now) then {last.1} else {})
    {
      var j :| 0 <= j < |rows| && Stale(rows[j], now) && rows[j].1 == f;
      if j < |init| { assert init[j] == rows[j]; }
    }
  }

  /** Some stale fetched row carries database id `id`. */
  predicate StaleIdIn(rows: seq<VisitTuple>, now: int, id: int) {
    exists j :: 0 <= j < |rows| && Stale(rows[j], now) && rows[j].0 == id
  }

  lemma StaleIdInSnoc(rows: seq<VisitTuple>, now: int, id: int)
    requires rows != []
    ensures StaleIdIn(rows, now, id) <==>
      StaleIdIn(rows[..|rows| - 1], now, id) || (Stale(rows[|rows| - 1], now) && rows[|rows| - 1].0 == id)
  {
    var init := rows[..|rows| - 1];
    if StaleIdIn(rows, now, id) && !(Stale(rows[|rows| - 1], now) && rows[|rows| - 1].0 == id) {
      var j :| 0 <= j < |rows| && Stale(rows[j], now) && rows[j].0 == id;
      assert init[j] == rows[j];
    }
    if StaleIdIn(init, now, id) {
      var j :| 0 <= j < |init| && Stale(init[j], now) && init[j].0 == id;
      assert rows[j] == init[j];
    }
  }

  /** One fetched row clears the flag of the rows with its id when it is
      stale, and changes no other row. */
  lemma ReloadRowRows(env: Env, s: State, row: VisitTuple, now: int)
    ensures var r := ReloadRow(env, s, row, now);
      |r.db.visits| == |s.db.visits| &&
      forall i :: 0 <= i < |s.db.visits| ==>
        r.db.visits[i].id == s.db.visits[i].id &&
        r.db.visits[i].active == (s.db.visits[i].active && !(Stale(row, now) && row.0 == s.db.visits[i].id))
  {
  }

  /** A visit row is deactivated exactly when a stale fetched row carries its
      id; no other row changes. */
  lemma {:induction false} ReloadDeactivatesStale(env: Env, s: State, rows: seq<VisitTuple>, now: int)
    ensures var r := ReloadRows(env, s, rows, now);
      |r.db.visits| == |s.db.visits| &&
      forall i :: 0 <= i < |s.db.visits| ==>
        r.db.visits[i].id == s.db.visits[i].id &&
        r.db.visits[i].active == (s.db.visits[i].active && !StaleIdIn(rows, now, s.db.visits[i].id))
  {
    if rows != [] {
      var init, last := rows[..|rows| - 1], rows[|rows| - 1];
      ReloadDeactivatesStale(env, s, init, now);
      var r1 := ReloadRows(env, s, init, now);
      ReloadRowRows(env, r1, last, now);
      forall i | 0 <= i < |s.db.visits|
        ensures StaleIdIn(rows, now, s.db.visits[i].id) <==>
          StaleIdIn(init, now, s.db.visits[i].id) || (Stale(last, now) && last.0 == s.db.visits[i].id)
      {
        StaleIdInSnoc(rows, now, s.db.visits[i].id);
      }
    }
  }

  /** Every entry of the reloaded table was there before or is a loaded
      visitor, with its id and with its entry time as its last sighting. */
  lemma {:induction false} ReloadedEntriesOrigin(env: Env, s: State, rows: seq<VisitTuple>, now: int)
    ensures var r := ReloadRows(env, s, rows, now);
      forall v :: v in r.visits ==>
        v in s.visits || exists j :: 0 <= j < |rows| && !Stale(rows[j], now) && v == Reloaded(env, rows[j])
  {
    if rows != [] {
      var init := rows[..|rows| - 1];
      ReloadedEntriesOrigin(env, s, init, now);
      assert forall j :: 0 <= j < |init| ==> init[j] == rows[j];
    }
  }

  /** The entry of the last loaded visitor under each key is in the table. */
  lemma {:induction false} ReloadKeepsLastLoaded(env: Env, s: State, rows: seq<VisitTuple>, now: int)
    ensures var r := ReloadRows(env, s, rows, now);
      forall j :: 0 <= j < |rows| && LastLoadedUnderKey(env, rows, j, now) ==> Reloaded(env, rows[j]) in r.visits
  {
    if rows != [] {
      var init, last := rows[..|rows| - 1], rows[|rows| - 1];
      ReloadKeepsLastLoaded(env, s, init, now);
      var r1 := ReloadRows(env, s, init, now);
      forall j | 0 <= j < |rows| && LastLoadedUnderKey(env, rows, j, now)
        ensures Reloaded(env, rows[j]) in ReloadRow(env, r1, last, now).visits
      {
        if j < |init| {
          LastLoadedInInit(env, rows, j, now);
          ReloadRowKeeps(env, r1, last, now, Reloaded(env, rows[j]));
        } else {
          ReloadRowLoads(env, r1, last, now);
        }
      }
      assert ReloadRows(env, s, rows, now) == ReloadRow(env, r1, last, now);
    }
  }

  /** A fetched row within the lifetime is loaded. */
  lemma ReloadRowLoads(env: Env, s: State, row: VisitTuple, now: int)
    requires !Stale(row, now)
    ensures Reloaded(env, row) in ReloadRow(env, s, row, now).visits
  {
  }

  /** The last loaded row under a key, other than the final row, is the last
      loaded one of the rows before the final one, and the final row does not
      load its key. */
  lemma LastLoadedInInit(env: Env, rows: seq<VisitTuple>, j: nat, now: int)
    requires j + 1 < |rows| && LastLoadedUnderKey(env, rows, j, now)
    ensures LastLoadedUnderKey(env, rows[..|rows| - 1], j, now)
    ensures !Stale(rows[|rows| - 1], now) ==> env.hash(rows[|rows| - 1].2) != env.hash(rows[j].2)
  {
    var init := rows[..|rows| - 1];
    assert forall k :: j < k < |init| ==> init[k] == rows[k];
  }

  /** One fetched row keeps every entry whose key it does not load. */
  lemma ReloadRowKeeps(env: Env, s: State, row: VisitTuple, now: int, w: Visit)
    requires w in s.visits && (!Stale(row, now) ==> w.key != env.hash(row.2))
    ensures w in ReloadRow(env, s, row, now).visits
  {
  }

  /** `cargar_visitas_temporales`: the rows are fetched once, before any is
      deactivated. */
  function LoadVisits(env: Env, s: State, now: int): State {
    ReloadRows(env, s, ActiveVisitRows(s.db.visits), now)
  }

  // ---------------------------------------------------------------------
  // Per-detection dispatch and the frame loop
  // ---------------------------------------------------------------------

  /** A detected face: its encoding and its place in the frame. */
  datatype Detection = Detection(encoding: Encoding, region: Region)

  /** One face of a processed frame: a recognised person (a non-empty name)
      goes through the cooldown; anyone else becomes a new visitor. Either
      way the detection is counted. */
  function Detect(env: Env, s: State, d: Detection, height: nat, width: nat, clock: DateTime, now: int): (r: State)
    requires ValidDateTime(clock)
    ensures r.stats.totalDetections == s.stats.totalDetections + 1
    ensures r.stats.visitsRegistered <= s.stats.visitsRegistered + 1
    ensures r.frames == s.frames && r.lastCleanup == s.lastCleanup
    ensures Inv(env, s) ==> Inv(env, r)
  {
    var (s1, out) := Recognize(env, s, d.encoding, now);
    Dispatch(env, s1, out, d, height, width, clock, now)
  }

  /** A face that matches a visitor, or a resident with a non-empty name,
      adds no visitor and no picture; a face that matches nobody and whose
      crop is not empty registers exactly one new visitor, whose entry is in
      the table, and touches no cooldown. */
  lemma DetectEffect(env: Env, s: State, d: Detection, height: nat, width: nat, clock: DateTime, now: int)
    requires ValidDateTime(clock)
    ensures var r, c := Detect(env, s, d, height, width, clock, now), Classify(env, s, d.encoding);
      && ((c.VisitorMatch? || (c.ResidentMatch? && s.names[c.index] != "")) ==>
            && Keys(r.visits) == Keys(s.visits)
            && r.stats.visitsRegistered == s.stats.visitsRegistered
            && r.images == s.images)
      && (c.NoMatch? && !CropEmpty(d.region, height, width) ==>
            && r.stats.visitsRegistered == s.stats.visitsRegistered + 1
            && NewEntry(env, d.encoding, VisitFileName(clock), now) in r.visits
            && r.lastRecorded == s.lastRecorded)
  {
  }

  /** What follows recognition: the cooldown for a recognised name, a new
      visitor otherwise, and the detection counted. */
  function Dispatch(env: Env, s: State, out: Outcome, d: Detection, height: nat, width: nat, clock: DateTime, now: int): State
    requires ValidDateTime(clock)
  {
    var s1 := if out.name.Some? && out.name.value != "" then RecordAccess(s, out.name.value, out.isResident, now)
              else NewVisit(env, s, d.encoding, d.region, height, width, clock, now).0;
    Counted(s1)
  }

  /** `total_detecciones += 1`. */
  function Counted(s: State): State {
    s.(stats := s.stats.(totalDetections := s.stats.totalDetections + 1))
  }

  /** The path each classification takes: a resident with a non-empty name,
      or a visitor (whose label is never empty, and whose last sighting is
      refreshed first), goes through the cooldown under that label; a face
      that matches nobody, or a resident stored with an empty name, goes to
      the new-visitor path on the untouched state. Each ends with the
      detection counted. */
  lemma DetectPaths(env: Env, s: State, d: Detection, height: nat, width: nat, clock: DateTime, now: int)
    requires ValidDateTime(clock)
    ensures var r, c := Detect(env, s, d, height, width, clock, now), Classify(env, s, d.encoding);
      && (c.ResidentMatch? && s.names[c.index] != "" ==>
            r == Counted(RecordAccess(s, s.names[c.index], true, now)))
      && (c.VisitorMatch? ==>
            r == Counted(RecordAccess(s.(visits := Touch(s.visits, c.index, now)),
                                      VisitorLabel(s.visits[c.index].fileName), false, now)))
      && ((c.NoMatch? || (c.ResidentMatch? && s.names[c.index] == "")) ==>
            r == Counted(NewVisit(env, s, d.encoding, d.region, height, width, clock, now).0))
  {
  }

  /** The faces of one processed frame, handled in order. */
  function DetectAll(env: Env, s: State, faces: seq<Detection>, height: nat, width: nat, clock: DateTime, now: int): (r: State)
    requires ValidDateTime(clock)
    ensures r.stats.totalDetections == s.stats.totalDetections + |faces|
    ensures r.stats.visitsRegistered <= s.stats.visitsRegistered + |faces|
    ensures r.frames == s.frames && r.lastCleanup == s.lastCleanup
    ensures Inv(env, s) ==> Inv(env, r)
  {
    if faces == [] then s
    else
      var s1 := DetectAll(env, s, faces[..|faces| - 1], height, width, clock, now);
      Detect(env, s1, faces[|faces| - 1], height, width, clock, now)
  }

  /** Handling the first `k + 1` faces is handling the first `k`, then
      face `k`. */
  lemma DetectAllStep(env: Env, s: State, faces: seq<Detection>, k: nat, height: nat, width: nat, clock: DateTime, now: int)
    requires ValidDateTime(clock) && k < |faces|
    ensures DetectAll(env, s, faces[..k + 1], height, width, clock, now) ==
            Detect(env, DetectAll(env, s, faces[..k], height, width, clock, now), faces[k], height, width, clock, now)
  {
    assert faces[..k + 1][..k] == faces[..k];
  }

  /** One pass of the frame loop: the counter grows; every N-th frame its
      faces are handled; and when more than two minutes have passed since the
      last sweep, the table is swept. A stride that is not an integer, or is
      zero, makes the loop raise and stop. */
  function Frame(env: Env, s: State, faces: seq<Detection>, height: nat, width: nat, clock: DateTime, now: int): (r: (State, bool))
    requires ValidDateTime(clock)
    ensures Inv(env, s) ==> Inv(env, r.0)
  {
    var s1 := s.(frames := s.frames + 1);
    match FrameStride(env.config)
    case None => (s1, false)
    case Some(n) =>
      if n == 0 then (s1, false)
      else
        var s2 := if s1.frames % n == 0 then DetectAll(env, s1, faces, height, width, clock, now) else s1;
        if now - s.lastCleanup > CleanupSeconds then (Sweep(s2, now).(lastCleanup := now), true)
        else (s2, true)
  }

  /** The counter grows by one; the loop stops exactly when the stride is
      missing from use (not an integer) or zero, and then nothing else
      changes; otherwise every face is counted exactly on the N-th frames,
      and the last sweep time moves to `now` exactly when a sweep is due. */
  lemma FrameEffect(env: Env, s: State, faces: seq<Detection>, height: nat, width: nat, clock: DateTime, now: int)
    requires ValidDateTime(clock)
    ensures var r := Frame(env, s, faces, height, width, clock, now);
      && r.0.frames == s.frames + 1
      && (!r.1 <==> FrameStride(env.config) == None || FrameStride(env.config) == Some(0))
      && (!r.1 ==> r.0 == s.(frames := s.frames + 1))
      && (r.1 ==>
            var n := FrameStride(env.config).value;
            && r.0.stats.totalDetections == s.stats.totalDetections + (if (s.frames + 1) % n == 0 then |faces| else 0)
            && r.0.lastCleanup == (if now - s.lastCleanup > CleanupSeconds then now else s.lastCleanup))
  {
  }
}
