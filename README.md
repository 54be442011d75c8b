# Barrio Seguro: a verified model of the recognition engine

Barrio Seguro is a neighbourhood access-control system. A camera watches an
entrance. Each detected face is matched first against the registered
residents (`vecinos`) and then against a table of temporary visitors
(`visitas_activas`). An unknown face becomes a new visitor, with a saved
picture and a database row. Accesses go into an append-only log (`accesos`);
a 30-second cooldown keeps one label from being logged on every frame. A
visitor not seen for 30 minutes is swept: an exit event is logged, the row is
deactivated when the visitor carries a database id, and the picture is
deleted. An analysis module post-processes the rows of grouped queries over
the log.

The Dafny project models four source files. Modules follow them:

- `Common` (common.dfy): `Option`, encodings as `seq<real>`, and the face
  distance as an uninterpreted function.
- `Utils` (utils.dfy), for `utils.py`:
  - the fixed-threshold comparison;
  - visitor file names;
  - elapsed-time formatting;
  - the resize rule;
  - the configuration merge.
- `Store` (base_datos.dfy), for `base_datos.py`:
  - the three tables as values, with AUTOINCREMENT ids and UNIQUE columns as an invariant;
  - each operation as a function on the tables;
  - a `Database` class whose methods update sequence fields and are proved equal to those functions.
- `VisitTable` (visit_table.dfy): the insertion-ordered dictionary `visitas_activas`.
- `EngineSpec` (engine_spec.dfy): the engine state of `SistemaReconocimiento` as a value. Each operation is a transition function, proved against the properties the code promises.
- `Engine` (engine.dfy): the class `RecognitionSystem`. It has the fields of `SistemaReconocimiento`. Each of its methods changes them step by step, with the same loops as the source. Each method is proved to reach the state the `EngineSpec` function prescribes and to keep the engine invariant.
- `Analysis` (analisis_registros.dfy), for the row post-processing of `analisis_registros.py`.

Time is an integer number of seconds, passed in as `now`. The wall-clock
reading that names a picture is a separate `DateTime` parameter. Face
distance and the encoding hash are oracles held in `EngineSpec.Env`,
together with the configuration.

Where the code departs from what its configuration keys and comments
suggest, the model follows the code:

- Visitors are matched by `comparar_caras` against the fixed constant
  `TOLERANCIA_RECONOCIMIENTO` (0.5, utils.py:109). The configured
  `tolerancia_reconocimiento` is read only for residents (reconocimiento.py:185).
- The settings menu lets the user change `tiempo_visita_minutos`
  (main.py:334-341), but the sweep and the reload compare against the
  constant `TIEMPO_VISITA_MINUTOS` (30 minutes, reconocimiento.py:112 and
  :306). The model uses the constant.
- Creating a visitor is not all-or-nothing. The answer of
  `registrar_visita_temporal` is ignored (reconocimiento.py:237), and the
  table entry and the entry event are written whatever it was.
- Visitors created during a session carry no database id
  (reconocimiento.py:241-246). The sweep's `'id' in info_visita` test
  (reconocimiento.py:314) therefore never deactivates their rows; it
  deactivates only the rows of visitors reloaded at startup.
- Every visitor label is `"Visita_" + nombre_archivo[:8]`
  (reconocimiento.py:202, :249, :310). With file names `visita_YYYY...` that
  is `"Visita_visita_2"` for every visitor of the current millennium. All
  visitors therefore share one cooldown entry (`EngineSpec.VisitorLabelShared`,
  `EngineSpec.CooldownSuppressesRepeat`).
- The sweep is not a concurrent timer task. It runs inline in the frame loop
  when more than 120 seconds have passed since the previous sweep
  (reconocimiento.py:449-451).

## Model

| member | source | states |
|---|---|---|
| Utils.CompareFaces | utils.py:101-115 | a match iff the encodings are comparable and the distance is at most the fixed 0.5; the distance is reported; an encoding of the wrong length (the library error) gives (False, 1.0) |
| Utils.NatToString | utils.py:276-280 | the decimal text of a number has at least one digit, consists of digits only, reads back as that number, and has no leading zero (it starts with `0` only for zero itself) |
| Utils.Stamp | utils.py:140 | the `%Y%m%d_%H%M%S` stamp is 15 characters: eight digits, `_`, six digits |
| Utils.StampRoundTrip | utils.py:140 | parsing a stamp gives back the clock reading it came from |
| Utils.VisitFileName | utils.py:138-141 | the name is 26 characters: `visita_`, the stamp and `.jpg`; its first 8 characters are `visita_` plus the thousands digit of the year |
| Utils.VisitFileNameInjective | utils.py:138-141 | two file names are equal iff they come from the same clock second |
| Utils.SplitElapsed | utils.py:271-273 | minutes and seconds lie in 0..59 and h*3600 + m*60 + s is the elapsed time; hours are non-negative for a non-negative elapsed time |
| Utils.SplitElapsedUnique | utils.py:271-273 | the split with minutes and seconds in range is the only one |
| Utils.FormatElapsed | utils.py:266-284 | the text shows hours iff h > 0, shows minutes iff h > 0 or m > 0, and always ends with the seconds |
| Utils.FormatElapsedRoundTrip | utils.py:266-284 | reading the text back with `ParseElapsed` gives exactly the shown parts of the split: hours, minutes and seconds; minutes and seconds; or seconds alone, with a hidden hour count read as 0 |
| Utils.ResizedSize | utils.py:118-135 | an image no wider than the limit is unchanged; a changed one has exactly the limit as width and the floor of the scaled height; an image that would scale to zero height comes back unchanged |
| Utils.ResizeIdempotent | utils.py:118-135 | resizing twice with the same limit equals resizing once |
| Utils.LoadConfiguration | utils.py:207-234 | every default key is present; keys of a parsed file take the file's value; other keys keep the default; a missing or unreadable file gives exactly the defaults |
| Store.EmptyTablesValid | base_datos.py:34-82 | freshly created tables satisfy the id and uniqueness invariant |
| Store.InsertResident | base_datos.py:84-117 | registration succeeds iff no row, active or soft-deleted, has the name; on success one active row with a fresh id is appended; on failure nothing changes; the invariant is kept |
| Store.ActiveResidentRows | base_datos.py:119-144 | the listed triples are exactly those of the active rows |
| Store.ActiveResidentRowsInOrder | base_datos.py:119-144 | with ids increasing down the table, the listed ids increase too: the list is in table order |
| Store.FindActiveResident | base_datos.py:323-346 | a row is found iff some row has the name and is active, and the row found is such a row |
| Store.SoftDeleteResident | base_datos.py:348-373 | answers True iff a row has the name; only the `activo` flag of that row is cleared; the invariant is kept |
| Store.SoftDeleteIsPermanent | base_datos.py:103-114 | after a soft delete the name is not found, is not listed, and still cannot be registered again; every other name is found exactly as before |
| Store.DeactivateKeepsOthers | base_datos.py:348-373 | clearing the flag of one name leaves the lookup of every other name unchanged |
| Store.InsertAccess | base_datos.py:146-175 | the log grows by exactly one row, with an id above every earlier one; existing rows are untouched |
| Store.InsertVisit | base_datos.py:177-204 | the insert succeeds iff no row has that file name; on failure nothing changes; the invariant is kept |
| Store.ActiveVisitRows | base_datos.py:206-232 | the listed tuples are exactly those of the active rows |
| Store.ActiveVisitRowsInOrder | base_datos.py:206-232 | with ids increasing down the table, the listed ids increase too: the list is in table order |
| Store.DeactivateVisitRow | base_datos.py:234-259 | only the `activa` flag of rows with that id is cleared, and the answer is True even when no row has it |
| Store.DeactivatedVisitNotListed | base_datos.py:234-259 | after deactivation no listed row has that id, and every other active row is still listed |
| Store.Database.constructor | base_datos.py:34-82 | the database opens holding the given valid tables |
| Store.Database.RegisterResident | base_datos.py:84-117 | the new tables and the answer are those of `InsertResident` |
| Store.Database.ActiveResidents | base_datos.py:119-144 | the row-by-row loop builds exactly `ActiveResidentRows` |
| Store.Database.FindResidentByName | base_datos.py:323-346 | the answer is that of `FindActiveResident` |
| Store.Database.DeleteResident | base_datos.py:348-373 | the new tables and the answer are those of `SoftDeleteResident` |
| Store.Database.RegisterAccess | base_datos.py:146-175 | the new tables and the answer are those of `InsertAccess` |
| Store.Database.RegisterVisit | base_datos.py:177-204 | the new tables and the answer are those of `InsertVisit` |
| Store.Database.ActiveVisits | base_datos.py:206-232 | the row-by-row loop builds exactly `ActiveVisitRows` |
| Store.Database.DeactivateVisit | base_datos.py:234-259 | the new tables and the answer are those of `DeactivateVisitRow` |
| VisitTable.Put | reconocimiento.py:121 | assignment to a present key replaces that entry in place; a new key is appended; every other entry keeps its place; keys stay distinct |
| VisitTable.RemoveKeys | reconocimiento.py:325-326 | the kept entries are exactly those whose key is not deleted, in order; keys stay distinct |
| VisitTable.RemoveKeysTwice | reconocimiento.py:325-326 | deleting keys one round after another equals deleting them all at once |
| VisitTable.Touch | reconocimiento.py:201 | only entry j changes, and only its last-seen time; the keys are kept |
| EngineSpec.InitialState | reconocimiento.py:33-70 | the engine starts with no visitors, no cooldowns and zero counters, and satisfies the invariant |
| EngineSpec.Tolerance | reconocimiento.py:185-187 | the tolerance is 0.5 when unset, the configured number when it is an integer or a float, and the element of a one-element list (numpy broadcasting); text or any other list makes the comparison raise (`None`) |
| EngineSpec.FrameStride | reconocimiento.py:59 | the stride is 3 when unset and the configured integer when one is set; a value that is not an integer cannot be used |
| EngineSpec.FirstArgMin | reconocimiento.py:182 | the index holds the least distance, and no earlier index holds it |
| EngineSpec.FirstVisitorMatch | reconocimiento.py:194-203 | the first entry in insertion order that the comparison accepts; None iff no entry is accepted |
| EngineSpec.Classify | reconocimiento.py:178-210 | resident precedence: a resident within tolerance wins, with the first nearest resident, whatever the visitors; otherwise the first accepted visitor; a resident-stage error gives no match |
| EngineSpec.Recognize | reconocimiento.py:168-210 | a resident match or no match changes nothing and reports (name, True, d) or (None, False, 1.0); a visitor match refreshes that entry only and reports its label, False and the distance |
| EngineSpec.RecognizeTouchesOnlyTheMatch | reconocimiento.py:194-206 | an unknown face changes nothing; a resident changes nothing; only last-seen times of the visitor table change, and only for the reported visitor |
| EngineSpec.NewVisit | reconocimiento.py:212-261 | creating a visitor keeps the engine invariant |
| EngineSpec.AddVisitor | reconocimiento.py:234-252 | the writes of a new visit keep the engine invariant |
| EngineSpec.NewVisitEffect | reconocimiento.py:212-261 | an empty crop changes nothing and answers `Visita_Error`; otherwise the label is taken from the file name, the entry sits under the probe's hash with entry and last-seen time now and no id, the insert is attempted, exactly one visitor entry event with the picture path is logged, the count grows by one, and cooldowns are untouched |
| EngineSpec.VisitorLabelShared | reconocimiento.py:249 | all visitors created in one millennium get the same label, `Visita_visita_` plus the thousands digit of the year |
| EngineSpec.RecordAccess | reconocimiento.py:263-293 | inside the 30-second cooldown nothing changes; otherwise exactly one entry event is logged, the label's time becomes now, and a resident joins the detected set |
| EngineSpec.CooldownSuppressesRepeat | reconocimiento.py:274-285 | a visitor logged at t1 suppresses any visitor of the same millennium until t1 + 30 |
| EngineSpec.Survivors | reconocimiento.py:303-307 | the surviving entries are exactly those not expired |
| EngineSpec.ExpiredEntries | reconocimiento.py:303-307 | the expired entries are exactly those unseen for more than the lifetime |
| EngineSpec.SweepDbEffect | reconocimiento.py:309-315 | one visitor exit event per expired entry, in table order; only the rows of expired entries that carry an id are deactivated; residents untouched |
| EngineSpec.SweepEntry | reconocimiento.py:309-315 | one exit event under the visitor's label, and a deactivation only when the entry carries an id |
| EngineSpec.FirstPassIsSweep | reconocimiento.py:303-322 | the first pass writes what `SweepDb` prescribes, deletes the pictures of the expired entries, and collects their keys in table order |
| EngineSpec.Sweep | reconocimiento.py:295-329 | the sweep writes `SweepDb`, deletes the expired pictures, keeps exactly the survivors in order, and keeps the invariant |
| EngineSpec.RemoveExpiredIsSurvivors | reconocimiento.py:325-326 | deleting the collected keys leaves exactly the surviving entries |
| EngineSpec.SweepEvictsExactlyExpired | reconocimiento.py:295-329 | an entry stays iff seen within the lifetime (one exactly at it stays); one exit event per removed entry; a row is deactivated iff an expired entry carries its id |
| EngineSpec.SplitCount | reconocimiento.py:303-307 | expired and surviving entries together account for the whole table |
| EngineSpec.SurvivorsAppend | reconocimiento.py:303-307 | the survivors of a longer table are the survivors before it plus the new entry when it is not expired |
| EngineSpec.LoadResidents | reconocimiento.py:72-97 | both resident lists are rebuilt from the active rows, in their order and of their length; nothing else changes |
| EngineSpec.ReloadRows | reconocimiento.py:106-127 | the reload keeps the engine invariant |
| EngineSpec.ReloadFrame | reconocimiento.py:106-127 | the reload changes only the visitor table, the pictures and the `activa` flags |
| EngineSpec.ReloadDeactivatesStale | reconocimiento.py:111-117 | a visit row is deactivated iff a stale fetched row carries its id |
| EngineSpec.ReloadDeletesStalePictures | reconocimiento.py:111-117 | the reload deletes exactly the pictures of the stale fetched rows, and no other |
| EngineSpec.ReloadedEntriesOrigin | reconocimiento.py:118-127 | every reloaded entry was there before, or is a fetched row within the lifetime with its id, with its entry time as last-seen time |
| EngineSpec.ReloadKeepsLastLoaded | reconocimiento.py:118-127 | the last loaded visitor under each key is in the table |
| EngineSpec.Detect | reconocimiento.py:427-437 | each face is counted once; at most one visitor is registered; the frame counter and sweep clock are untouched; the invariant is kept |
| EngineSpec.DetectEffect | reconocimiento.py:427-437 | a face matching a visitor, or a resident with a non-empty name, adds no visitor and no picture; an unmatched face with a non-empty crop registers exactly one visitor whose entry is in the table, and touches no cooldown |
| EngineSpec.DetectPaths | reconocimiento.py:427-437 | a resident with a non-empty name goes through the cooldown under that name as a resident; a visitor has its last sighting refreshed and goes through the cooldown under its label as a visitor; a face matching nobody, or a resident stored with an empty name, takes the new-visitor path; each path ends with the detection counted once |
| EngineSpec.DetectAll | reconocimiento.py:417-437 | every face of the frame is counted; at most one visitor per face is registered; the invariant is kept |
| EngineSpec.Frame | reconocimiento.py:401-451 | one pass of the frame loop keeps the invariant |
| EngineSpec.FrameEffect | reconocimiento.py:401-451 | the counter grows by one; the loop stops iff the stride is not an integer or is zero, and then nothing else changes; faces are counted exactly on every N-th frame; the sweep clock moves to now iff more than 120 seconds have passed |
| Engine.RecognitionSystem.constructor | reconocimiento.py:33-70 | the engine starts in `InitialState` |
| Engine.RecognitionSystem.LoadResidents | reconocimiento.py:72-97 | the loop rebuilds the resident lists as `EngineSpec.LoadResidents`, and loading succeeds |
| Engine.RecognitionSystem.LoadVisits | reconocimiento.py:99-132 | the loop over the fetched rows reaches `EngineSpec.LoadVisits` |
| Engine.RecognitionSystem.ReloadRow | reconocimiento.py:106-127 | one fetched row: a stale one is deactivated and its picture removed, any other is put under its hash |
| Engine.RecognitionSystem.Recognize | reconocimiento.py:168-210 | the answer and the new state are those of `EngineSpec.Recognize` |
| Engine.RecognitionSystem.ScanVisitors | reconocimiento.py:191-206 | the loop stops at the first accepted visitor, refreshes only it and reports its label and distance; with none it changes nothing and reports (None, False, 1.0) |
| Engine.RecognitionSystem.FirstMatchAt | reconocimiento.py:194-203 | an accepted entry after only rejected ones is the first match |
| Engine.RecognitionSystem.ProcessNewVisit | reconocimiento.py:212-261 | the label and the new state are those of `EngineSpec.NewVisit` |
| Engine.RecognitionSystem.AddVisitor | reconocimiento.py:234-252 | the writes reach `EngineSpec.AddVisitor` |
| Engine.RecognitionSystem.UpdateLastAccess | reconocimiento.py:263-293 | the new state is that of `EngineSpec.RecordAccess` |
| Engine.RecognitionSystem.SweepExpired | reconocimiento.py:295-329 | the two passes reach `EngineSpec.Sweep` |
| Engine.RecognitionSystem.CollectExpired | reconocimiento.py:303-322 | the first pass writes `SweepDb`, deletes the expired pictures, and answers their keys in table order |
| Engine.RecognitionSystem.DeleteKeys | reconocimiento.py:325-326 | deleting the keys one by one removes exactly their entries |
| Engine.RecognitionSystem.SweepEntry | reconocimiento.py:309-315 | the database writes for one expired entry equal `EngineSpec.SweepEntry` |
| Engine.RecognitionSystem.HandleDetection | reconocimiento.py:427-437 | one face reaches `EngineSpec.Detect` |
| Engine.RecognitionSystem.Dispatch | reconocimiento.py:429-437 | after recognition, the cooldown path for a non-empty name, a new visit otherwise, then the count, as `EngineSpec.Dispatch`; which path each classification takes is `EngineSpec.DetectPaths` |
| Engine.RecognitionSystem.HandleAll | reconocimiento.py:417-437 | the loop over the faces reaches `EngineSpec.DetectAll` |
| Engine.RecognitionSystem.ProcessFrame | reconocimiento.py:401-451 | the new state and whether the loop goes on are those of `EngineSpec.Frame` |
| Engine.RecognitionSystem.SweepIfDue | reconocimiento.py:448-451 | a sweep, and the sweep clock set to now, happen iff more than 120 seconds have passed; otherwise nothing changes |
| Analysis.HourMapKeys | analisis_registros.py:121-127 | the per-hour table holds exactly the hours of the rows |
| Analysis.HourMapValues | analisis_registros.py:121-127 | each hour holds the counts of the last row of that hour |
| Analysis.BandSplit | analisis_registros.py:134-137 | a band sum splits at any hour inside it |
| Analysis.BandsCoverDay | analisis_registros.py:134-137 | the four bands together sum hours 0 to 23, each once |
| Analysis.BandSumInsert | analisis_registros.py:134-137 | storing a new hour adds its total to exactly the bands containing it |
| Analysis.DayBandIsAllAccesses | analisis_registros.py:121-137 | for distinct hours in 0..23, the whole-day band sums all accesses of the rows |
| Analysis.BandSumEmpty | analisis_registros.py:134-137 | with no hours stored every band is zero |
| Analysis.BandsAccountForAllAccesses | analisis_registros.py:134-137 | the four band sums of the report add up to all accesses of the rows |
| Analysis.PeakAndValleyAreExtremes | analisis_registros.py:130-131 | in the query's order the first row has the most accesses and the last row the fewest |
| Analysis.FirstBadHour | analisis_registros.py:122-123 | the first row whose hour `int()` rejects |
| Analysis.AnalyzePeakHours | analisis_registros.py:92-163 | no rows is the no-data error; an unreadable hour is the `int()` error for the first such row; otherwise the per-hour table, the first row as peak, the last as valley, and the four band sums |
| Analysis.DaysWithVisitsBound | analisis_registros.py:214-218 | the days with visitors are at most the days analysed |
| Analysis.NoVisitDaysIffNoVisits | analisis_registros.py:212-215 | no day has visitors iff there were no visitor accesses |
| Analysis.VisitsWithinAccesses | analisis_registros.py:212-213 | the visitor total is at most the access total |
| Analysis.BusiestDay | analisis_registros.py:223 | the first day with the most visitors |
| Analysis.QuietestDay | analisis_registros.py:224 | the first day with the fewest visitors |
| Analysis.AnalyzeDays | analisis_registros.py:165-244 | no rows is the error naming the period; otherwise the rows in order, their number, the visitor and access sums, the days with visitors, and the extreme days |
| Analysis.RecordOf | analisis_registros.py:298-306 | the balance is entries minus exits, positive iff there are more entries |
| Analysis.BalancesAddUp | analisis_registros.py:296-306 | the balances add up to all entries minus all exits |
| Analysis.AnalyzeActive | analisis_registros.py:246-325 | one record per row of the first query, in order, with its balance; the frequency rows as read; the count of residents listed |

## Left out

- Camera, OpenCV, drawing, `imshow` and the `q`/`r`/`c` keys: `modo_registro_rapido` and the manual sweep on `c` are UI. A frame is given as its faces and its size.
- face_recognition: encoding extraction and `face_distance` are an uninterpreted distance function.
- `Utils.CompareFaces`: encodings are assumed to have the library's fixed length (128). Any length mismatch is the library error (False, 1.0), although numpy would broadcast an encoding of length 1 and return a distance.
- Scaling face locations back to frame size is not modelled: regions come in frame coordinates.
- Python's `hash` of an encoding is an uninterpreted function.
- Floating point: distances and tolerances are `real`. The averages and `round` of `analizar_visitas_por_dia` are not modelled, and neither is the rounded `accesos_por_dia` of the frequency query (taken as given).
- SQL: the query text, date filters, `strftime`, `LIMIT` and `ORDER BY` are not modelled. Result rows are inputs, and the query order is a precondition of `Analysis.PeakAndValleyAreExtremes` only.
- `CURRENT_TIMESTAMP` is UTC while `datetime.now()` is local time; the model uses one integer clock.
- `datetime.fromisoformat` failing on a stored date is not modelled.
- Exceptions: sqlite errors other than the UNIQUE constraints, and every exception not listed here, are not modelled. The model keeps:
  - the `face_distance` error on encodings of different lengths (`Utils.CompareFaces`, `EngineSpec.ResidentStageFails`);
  - the failing `<=` against a tolerance that is text or a list of other than one element (`EngineSpec.Tolerance`);
  - the `cv2.imwrite` failure on an empty crop, answered by `Visita_Error` (`EngineSpec.NewVisit`);
  - the `%` failure of a zero or non-integer stride, which ends the frame loop (`EngineSpec.Frame`);
  - the failing `cv2.resize` of an empty size (`Utils.ResizedSize`);
  - the `int(hora)` failure in `analizar_horas_pico` (`Analysis.AnalyzePeakHours`).
- `Analysis.HourParses`: `int()` also accepts surrounding whitespace, a sign and underscores; such hour text cannot come from `strftime('%H')`, so only digit strings parse.
- `Utils.LoadConfiguration` and `EngineSpec.Tolerance`: JSON booleans, null, nested objects and lists of non-integers are not configuration values.
- `EngineSpec.Tolerance`: an empty list is treated as a failing comparison; numpy before 2.2 instead gives an empty array that reads as False, so that the residents are skipped and the visitors still compared.
- `EngineSpec.FrameStride`: a float `procesar_cada_n_frames`, which Python's `%` would accept, is treated as unusable and stops the loop.
- `Utils.ResizedSize`: the new height is the exact integer floor of `alto * ancho_max / ancho`, while the source computes `int(alto * (ancho_max / ancho))` in floating point (utils.py:127-129), which can round one pixel lower. A limit of zero or less, where the source's division raises or the resize fails, gives the original size, as the source's `except` does.
- `Utils.ValidDateTime` requires a four-digit year, so years before 1000 (where `%Y` prints fewer digits) are not modelled.
- One `now` per frame: the source reads the clock separately for each detection and for the sweep check.
- `cv2.imwrite` returning False instead of raising is not modelled; an empty crop is the failure case.
- Pictures are a set of file names; `os.path.exists` and `os.remove` are set membership and removal.
- Pickle serialisation of encodings and JSON file reading and writing are I/O, not modelled.
- `obtener_estadisticas_accesos`, `limpiar_datos_antiguos`, `obtener_estadisticas_generales`, `generar_reporte_completo` and `mostrar_reporte_consola` are outside the modelled core.
- `inicializar_camara`, `mostrar_estadisticas_sesion` and `finalizar_sistema` are camera and display I/O.
- `main.py`, `registro_vecino.py` and `scripts/inicializar_sistema.py` are menus, enrolment UI and setup.
- Logging and console output.
