/** `SistemaReconocimiento`: the engine object whose methods update its
    resident snapshot, visitor table, cooldown table and counters in place,
    and write to the database it holds. Each method is proved to take the
    engine from a state to the one the matching function of `EngineSpec`
    prescribes. */
module Engine {
  import opened Common
  import opened Utils
  import opened Store
  import opened VisitTable
  import EngineSpec

  class RecognitionSystem {
    /** The distance, the hash and the configuration. */
    const env: EngineSpec.Env
    /** The database connection (`self.db`). */
    const db: Database
    /** `nombres_vecinos` and `encodings_vecinos`. */
    var names: seq<string>
    var encodings: seq<Encoding>
    /** `visitas_activas`, in insertion order. */
    var visits: seq<Visit>
    /** `ultimo_reconocimiento`. */
    var lastRecorded: map<string, int>
    /** `stats_sesion`. */
    var stats: EngineSpec.Stats
    /** The pictures in the visitors' directory. */
    var images: set<string>
    /** `contador_frames`. */
    var frames: nat
    /** The frame loop's `ultimo_cleanup`. */
    var lastCleanup: int

    /** The abstract value of the engine and its database. */
    function State(): EngineSpec.State
      reads this, db
    {
      EngineSpec.State(names, encodings, visits, lastRecorded, stats, images, frames, lastCleanup, db.State())
    }

    ghost predicate Valid()
      reads this, db
    {
      EngineSpec.Inv(env, State())
    }

    /** `__init__` together with the start of the frame loop: nothing loaded
        yet, no visitors, no cooldowns, zero counters. */
    constructor (env: EngineSpec.Env, db: Database, startedAt: int)
      requires db.Valid()
      ensures this.env == env && this.db == db
      ensures Valid() && State() == EngineSpec.InitialState(db.State(), startedAt)
    {
      this.env := env;
      this.db := db;
      names, encodings, visits := [], [], [];
      lastRecorded := map[];
      stats := EngineSpec.Stats({}, 0, 0);
      images := {};
      frames := 0;
      lastCleanup := startedAt;
    }

    /** `cargar_vecinos_conocidos`: rebuilds both resident lists from the
        active rows. */
    method LoadResidents() returns (ok: bool)
      requires Valid()
      modifies this
      ensures Valid() && ok
      ensures State() == EngineSpec.LoadResidents(old(State()))
    {
      var rows := db.ActiveResidents();
      var newNames: seq<string>, newEncodings: seq<Encoding> := [], [];
      for i := 0 to |rows|
        invariant |newNames| == i && |newEncodings| == i
        invariant forall j :: 0 <= j < i ==> newNames[j] == rows[j].1 && newEncodings[j] == rows[j].2
      {
        var (_, name, encoding) := rows[i];
        newNames := newNames + [name];
        newEncodings := newEncodings + [encoding];
      }
      ghost var r := EngineSpec.LoadResidents(old(State()));
      assert newNames == r.names && newEncodings == r.encodings;
      names, encodings := newNames, newEncodings;
      ok := true;
    }

    /** `cargar_visitas_temporales`. */
    method LoadVisits(now: int)
      requires Valid()
      modifies this, db
      ensures Valid()
      ensures State() == EngineSpec.LoadVisits(env, old(State()), now)
    {
      ghost var s0 := State();
      var rows := db.ActiveVisits();
      for i := 0 to |rows|
        invariant State() == EngineSpec.ReloadRows(env, s0, rows[..i], now)
      {
        EngineSpec.ReloadRowsStep(env, s0, rows, i, now);
        ReloadRow(rows[i], now);
      }
      assert rows[..|rows|] == rows;
    }

    /** One fetched row: a stale visitor is deactivated and its picture
        deleted, any other is put in the table under its hash. */
    method ReloadRow(row: VisitTuple, now: int)
      requires Valid()
      modifies this`visits, this`images, db
      ensures Valid()
      ensures State() == EngineSpec.ReloadRow(env, old(State()), row, now)
    {
      var (id, fileName, encoding, enteredAt) := row;
      if now - enteredAt > EngineSpec.TtlSeconds {
        var _ := db.DeactivateVisit(id);
        images := images - {fileName};
      } else {
        visits := Put(visits, Visit(env.hash(encoding), Some(id), fileName, encoding, enteredAt, enteredAt));
      }
    }

    /** `reconocer_persona`: the resident stage, then the scan of the visitor
        table in insertion order, stopping at the first match. */
    method Recognize(q: Encoding, now: int) returns (name: Option<string>, isResident: bool, distance: real)
      requires Valid()
      modifies this
      ensures Valid()
      ensures (State(), EngineSpec.Outcome(name, isResident, distance)) == EngineSpec.Recognize(env, old(State()), q, now)
    {
      ghost var s0 := State();
      if |encodings| > 0 {
        if !EngineSpec.ResidentsComparable(encodings, q) || EngineSpec.Tolerance(env.config).None? {
          assert EngineSpec.Classify(env, s0, q) == EngineSpec.NoMatch;
          return None, false, 1.0;
        }
        var ds := EngineSpec.Distances(env.dist, encodings, q);
        var best := EngineSpec.FirstArgMin(ds);
        if ds[best] <= EngineSpec.Tolerance(env.config).value {
          assert EngineSpec.Classify(env, s0, q) == EngineSpec.ResidentMatch(best, ds[best]);
          return Some(names[best]), true, ds[best];
        }
      }
      assert !EngineSpec.ResidentStageFails(env, s0, q);
      name, isResident, distance := ScanVisitors(q, now);
    }

    /** The visitor stage of `reconocer_persona`: the first entry in
        insertion order that `comparar_caras` accepts has its last sighting
        refreshed and is reported under its label; with none, no match. */
    method ScanVisitors(q: Encoding, now: int) returns (name: Option<string>, isResident: bool, distance: real)
      modifies this`visits
      ensures match EngineSpec.FirstVisitorMatch(env.dist, old(visits), q)
        case Some(j) =>
          && visits == Touch(old(visits), j, now)
          && name == Some(EngineSpec.VisitorLabel(old(visits)[j].fileName)) && !isResident
          && distance == env.dist(old(visits)[j].encoding, q)
        case None => visits == old(visits) && name == None && !isResident && distance == 1.0
    {
      var j := 0;
      while j < |visits|
        invariant 0 <= j <= |visits| && visits == old(visits)
        invariant EngineSpec.FirstVisitorMatch(env.dist, visits[..j], q).None?
      {
        var (hit, d) := CompareFaces(env.dist, visits[j].encoding, q);
        if hit {
          FirstMatchAt(visits, j, q);
          var fileName := visits[j].fileName;
          visits := visits[j := visits[j].(lastSeen := now)];
          return Some(EngineSpec.VisitorLabel(fileName)), false, d;
        }
        assert visits[..j + 1] == visits[..j] + [visits[j]];
        j := j + 1;
      }
      assert visits[..j] == visits;
      return None, false, 1.0;
    }

    /** When the entries before `j` do not match and entry `j` does, `j` is
        the first match. */
    lemma FirstMatchAt(t: seq<Visit>, j: nat, q: Encoding)
      requires j < |t|
      requires EngineSpec.FirstVisitorMatch(env.dist, t[..j], q).None?
      requires EngineSpec.VisitorMatches(env.dist, t[j], q)
      ensures EngineSpec.FirstVisitorMatch(env.dist, t, q) == Some(j)
    {
      var r := EngineSpec.FirstVisitorMatch(env.dist, t, q);
      forall i | 0 <= i < j ensures !EngineSpec.VisitorMatches(env.dist, t[i], q) {
        assert t[..j][i] == t[i];
      }
    }

    /** `procesar_nueva_visita`. */
    method ProcessNewVisit(q: Encoding, region: EngineSpec.Region, height: nat, width: nat,
                           clock: DateTime, now: int) returns (tag: string)
      requires Valid() && ValidDateTime(clock)
      modifies this, db
      ensures Valid()
      ensures (State(), tag) == EngineSpec.NewVisit(env, old(State()), q, region, height, width, clock, now)
    {
      var fileName := VisitFileName(clock);
      if EngineSpec.CropEmpty(region, height, width) {
        return EngineSpec.ErrorLabel;
      }
      tag := EngineSpec.VisitorLabel(fileName);
      AddVisitor(q, fileName, tag, now);
    }

    /** The writes of a new visit: its picture, its database row (the answer
        of the insert is ignored), the table entry under the probe's hash,
        the logged entry event and the count. */
    method AddVisitor(q: Encoding, fileName: string, tag: string, now: int)
      requires Valid() && tag == EngineSpec.VisitorLabel(fileName)
      modifies this, db
      ensures Valid()
      ensures State() == EngineSpec.AddVisitor(env, old(State()), q, fileName, now)
    {
      ghost var s0 := State();
      images := images + {fileName};
      ghost var s1 := s0.(images := s0.images + {fileName});
      assert State() == s1;
      var _ := db.RegisterVisit(fileName, q, now);
      ghost var s2 := s1.(db := InsertVisit(s1.db, fileName, q, now).0);
      assert State() == s2;
      visits := Put(visits, Visit(env.hash(q), None, fileName, q, now, now));
      ghost var s3 := s2.(visits := Put(s2.visits, EngineSpec.NewEntry(env, q, fileName, now)));
      assert State() == s3;
      var _ := db.RegisterAccess(tag, Visitor, Entry, now, Some(EngineSpec.VisitDir + fileName));
      ghost var s4 := s3.(db := InsertAccess(s3.db, tag, Visitor, Entry, now, Some(EngineSpec.VisitDir + fileName)).0);
      assert State() == s4;
      stats := stats.(visitsRegistered := stats.visitsRegistered + 1);
      assert State() == s4.(stats := s4.stats.(visitsRegistered := s4.stats.visitsRegistered + 1));
    }

    /** `actualizar_ultimo_acceso`. */
    method UpdateLastAccess(name: string, isResident: bool, now: int)
      requires Valid()
      modifies this, db
      ensures Valid()
      ensures State() == EngineSpec.RecordAccess(old(State()), name, isResident, now)
    {
      if name in lastRecorded && now - lastRecorded[name] < EngineSpec.CooldownSeconds {
        return;
      }
      var _ := db.RegisterAccess(name, if isResident then Resident else Visitor, Entry, now, None);
      lastRecorded := lastRecorded[name := now];
      if isResident {
        stats := stats.(detectedResidents := stats.detectedResidents + {name});
      }
    }

    /** `limpiar_visitas_expiradas`: one pass that logs, deactivates and
        deletes pictures while collecting the expired keys, then a second
        pass that deletes those keys from the table. */
    method SweepExpired(now: int)
      requires Valid()
      modifies this, db
      ensures Valid()
      ensures State() == EngineSpec.Sweep(old(State()), now)
    {
      ghost var s0 := State();
      ghost var e := EngineSpec.ExpiredEntries(s0.visits, now);
      var toRemove := CollectExpired(now);
      ghost var s1 := s0.(db := EngineSpec.SweepDb(s0.db, s0.visits, now), images := s0.images - EngineSpec.FilesOf(e));
      assert State() == s1;
      DeleteKeys(toRemove);
      assert State() == s1.(visits := RemoveKeys(s0.visits, EngineSpec.KeySet(Keys(e))));
    }

    /** The first pass of the sweep: for each expired entry in table order,
        its database writes and the deletion of its picture; the answer is
        the list of expired keys. */
    method CollectExpired(now: int) returns (toRemove: seq<int>)
      requires db.Valid()
      modifies this`images, db
      ensures db.Valid()
      ensures db.State() == EngineSpec.SweepDb(old(db.State()), visits, now)
      ensures images == old(images) - EngineSpec.FilesOf(EngineSpec.ExpiredEntries(visits, now))
      ensures toRemove == Keys(EngineSpec.ExpiredEntries(visits, now))
    {
      ghost var db0, images0 := db.State(), images;
      toRemove := [];
      for i := 0 to |visits|
        invariant EngineSpec.Pass(db.State(), images, toRemove) == EngineSpec.FirstPass(db0, images0, visits[..i], now)
        invariant db.Valid()
      {
        EngineSpec.FirstPassPrefix(db0, images0, visits, i, now);
        var v := visits[i];
        if now - v.lastSeen > EngineSpec.TtlSeconds {
          toRemove := toRemove + [v.key];
          SweepEntry(v, now);
          images := images - {v.fileName};
        }
      }
      assert visits[..|visits|] == visits;
      EngineSpec.FirstPassIsSweep(db0, images0, visits, now);
    }

    /** The second pass of the sweep: `del` of each collected key in turn. */
    method DeleteKeys(ks: seq<int>)
      modifies this`visits
      ensures visits == RemoveKeys(old(visits), EngineSpec.KeySet(ks))
    {
      RemoveNoKeys(visits);
      assert EngineSpec.KeySet(ks[..0]) == {};
      for j := 0 to |ks|
        invariant visits == RemoveKeys(old(visits), EngineSpec.KeySet(ks[..j]))
      {
        RemoveKeysTwice(old(visits), EngineSpec.KeySet(ks[..j]), {ks[j]});
        assert EngineSpec.KeySet(ks[..j + 1]) == EngineSpec.KeySet(ks[..j]) + {ks[j]};
        visits := RemoveKeys(visits, {ks[j]});
      }
      assert ks[..|ks|] == ks;
    }

    /** The database writes of the sweep for one expired entry. */
    method SweepEntry(v: Visit, now: int)
      requires db.Valid()
      modifies db
      ensures db.Valid()
      ensures db.State() == EngineSpec.SweepEntry(old(db.State()), v, now)
    {
      var _ := db.RegisterAccess(EngineSpec.VisitorLabel(v.fileName), Visitor, Exit, now, None);
      if v.id.Some? {
        var _ := db.DeactivateVisit(v.id.value);
      }
    }

    /** The handling of one detected face in the frame loop. */
    method HandleDetection(face: EngineSpec.Detection, height: nat, width: nat, clock: DateTime, now: int)
      requires Valid() && ValidDateTime(clock)
      modifies this, db
      ensures Valid()
      ensures State() == EngineSpec.Detect(env, old(State()), face, height, width, clock, now)
    {
      var name, isResident, distance := Recognize(face.encoding, now);
      Dispatch(EngineSpec.Outcome(name, isResident, distance), face, height, width, clock, now);
    }

    /** The rest of the handling of a face, once it has been recognised. */
    method Dispatch(out: EngineSpec.Outcome, face: EngineSpec.Detection, height: nat, width: nat, clock: DateTime, now: int)
      requires Valid() && ValidDateTime(clock)
      modifies this, db
      ensures Valid()
      ensures State() == EngineSpec.Dispatch(env, old(State()), out, face, height, width, clock, now)
    {
      ghost var s0 := State();
      if out.name.Some? && out.name.value != "" {
        UpdateLastAccess(out.name.value, out.isResident, now);
      } else {
        var _ := ProcessNewVisit(face.encoding, face.region, height, width, clock, now);
      }
      ghost var s1 := State();
      assert s1 == if out.name.Some? && out.name.value != "" then EngineSpec.RecordAccess(s0, out.name.value, out.isResident, now)
                   else EngineSpec.NewVisit(env, s0, face.encoding, face.region, height, width, clock, now).0;
      stats := stats.(totalDetections := stats.totalDetections + 1);
      assert State() == EngineSpec.Counted(s1);
    }

    /** The faces of one processed frame, in order. */
    method HandleAll(faces: seq<EngineSpec.Detection>, height: nat, width: nat, clock: DateTime, now: int)
      requires Valid() && ValidDateTime(clock)
      modifies this, db
      ensures Valid()
      ensures State() == EngineSpec.DetectAll(env, old(State()), faces, height, width, clock, now)
    {
      ghost var s0 := State();
      for k := 0 to |faces|
        invariant State() == EngineSpec.DetectAll(env, s0, faces[..k], height, width, clock, now)
      {
        EngineSpec.DetectAllStep(env, s0, faces, k, height, width, clock, now);
        HandleDetection(faces[k], height, width, clock, now);
      }
      assert faces[..|faces|] == faces;
    }

    /** One pass of the frame loop of `iniciar_reconocimiento`: count the
        frame, handle its faces on every N-th frame, and sweep when more than
        two minutes have passed since the last sweep. The answer is whether
        the loop goes on. */
    method ProcessFrame(faces: seq<EngineSpec.Detection>, height: nat, width: nat, clock: DateTime, now: int)
      returns (running: bool)
      requires Valid() && ValidDateTime(clock)
      modifies this, db
      ensures Valid()
      ensures (State(), running) == EngineSpec.Frame(env, old(State()), faces, height, width, clock, now)
    {
      ghost var s0 := State();
      frames := frames + 1;
      var stride := EngineSpec.FrameStride(env.config);
      if stride.None? || stride.value == 0 {
        return false;
      }
      if frames % stride.value == 0 {
        HandleAll(faces, height, width, clock, now);
      }
      SweepIfDue(now);
      running := true;
    }

    /** The frame loop's periodic sweep: due when more than two minutes
        have passed since the last one. */
    method SweepIfDue(now: int)
      requires Valid()
      modifies this, db
      ensures Valid()
      ensures State() == if now - old(lastCleanup) > EngineSpec.CleanupSeconds
                         then EngineSpec.Sweep(old(State()), now).(lastCleanup := now) else old(State())
    {
      if now - lastCleanup > EngineSpec.CleanupSeconds {
        SweepExpired(now);
        lastCleanup := now;
      }
    }
  }
}
