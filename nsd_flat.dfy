/**
 * A model of the dataset generator of NSD-Flat (generate_dataset.py): the
 * train/test session split, the flat trial numbering, the order in which
 * trial records are produced, the region-of-interest column selection of the
 * per-session activity, the raster pipeline "mask, then quantize to 8 bits,
 * then flip vertically", and the assembly of one trial record.
 *
 * File loading, the surface resampler's fitting, z-scoring and image resizing
 * are external: they enter the model as parameters (functions or tables).
 */
module NsdFlat {

  // ===================================================================
  // Errors and results
  // ===================================================================

  datatype Option<+T> = None | Some(value: T)

  datatype Hemi = Lh | Rh

  /** The exceptions the generator can raise, by the point where it raises them. */
  datatype Error =
    | UnrecognizedSplit(split: string)       // ValueError for a split other than train/test
    | ColumnMismatch(hemi: Hemi)             // boolean column mask of the wrong length
    | EmptyScaleInput(hemi: Hemi)            // ValueError of z-scoring no trials or no ROI columns
    | RowMismatch                            // hemispheres with different trial counts
    | RasterShapeMismatch                    // transformed grid does not match the raster mask
    | MissingTrialInfo(subjectId: nat, trialId: int)
    | MissingField(key: string)              // absent key (or a stimulus id that is not an integer)
    | MissingImage(nsdId: int)
    | MissingAnnotation(nsdId: int)

  datatype Result<+T> = Ok(value: T) | Err(error: Error)

  // ===================================================================
  // Static configuration
  // ===================================================================

  const NUM_SUBS: nat := 8
  const NUM_TRIALS: nat := 30000
  const MAX_SESSIONS: nat := 40
  const TRIALS_PER_SESSION: nat := NUM_TRIALS / MAX_SESSIONS
  /** Number of standard deviations mapped to the ends of the 8-bit range. */
  const VMAX: real := 2.5

  function Digit(d: nat): char
    requires d < 10
  {
    (48 + d) as char
  }

  /** The subject name `subj{ii:02d}`. */
  function SubjectName(ii: nat): string
    requires ii < 100
  {
    "subj" + [Digit(ii / 10), Digit(ii % 10)]
  }

  /** `[SubjectName(ii) for ii in range(1, n + 1)]`. */
  function SubjectNames(n: nat): (names: seq<string>)
    requires n < 100
    ensures |names| == n
  {
    if n == 0 then [] else SubjectNames(n - 1) + [SubjectName(n)]
  }

  const SUBS: seq<string> := SubjectNames(NUM_SUBS)

  /** Available sessions per subject; the last three of each are the test set. */
  const NUM_SESSIONS: map<string, int> := map[
    "subj01" := 40, "subj02" := 40, "subj03" := 32, "subj04" := 30,
    "subj05" := 40, "subj06" := 32, "subj07" := 40, "subj08" := 30]

  lemma TrialsPerSession()
    ensures TRIALS_PER_SESSION == 750
    ensures TRIALS_PER_SESSION * MAX_SESSIONS == NUM_TRIALS
  {
  }

  /** The generated subject names are subj01 to subj08. */
  lemma SubjectNamesValue()
    ensures SUBS == ["subj01", "subj02", "subj03", "subj04", "subj05", "subj06", "subj07", "subj08"]
  {
    assert SubjectName(1) == "subj01" && SubjectName(2) == "subj02";
    assert SubjectName(3) == "subj03" && SubjectName(4) == "subj04";
    assert SubjectName(5) == "subj05" && SubjectName(6) == "subj06";
    assert SubjectName(7) == "subj07" && SubjectName(8) == "subj08";
    assert SubjectNames(1) == ["subj01"];
    assert SubjectNames(2) == ["subj01", "subj02"];
    assert SubjectNames(3) == ["subj01", "subj02", "subj03"];
    assert SubjectNames(4) == ["subj01", "subj02", "subj03", "subj04"];
    assert SubjectNames(5) == ["subj01", "subj02", "subj03", "subj04", "subj05"];
    assert SubjectNames(6) == ["subj01", "subj02", "subj03", "subj04", "subj05", "subj06"];
    assert SubjectNames(7) == ["subj01", "subj02", "subj03", "subj04", "subj05", "subj06", "subj07"];
  }

  /** Every generated subject name is a key of the session table, with 30 to 40 sessions. */
  lemma SubjectTable(subid: nat)
    requires subid < NUM_SUBS
    ensures SUBS[subid] in NUM_SESSIONS
    ensures 30 <= NUM_SESSIONS[SUBS[subid]] <= MAX_SESSIONS
  {
    SubjectNamesValue();
  }

  /** `NUM_SESSIONS[SUBS[subid]]`: the lookup never fails for an enumerated subject. */
  function SessionCount(subid: nat): (n: nat)
    requires subid < NUM_SUBS
    ensures 30 <= n <= MAX_SESSIONS
  {
    SubjectTable(subid);
    NUM_SESSIONS[SUBS[subid]]
  }

  // ===================================================================
  // Session split and trial numbering
  // ===================================================================

  /** Python's `range(lo, hi)`. */
  function Range(lo: int, hi: int): (r: seq<int>)
    ensures |r| == if lo < hi then hi - lo else 0
    ensures forall i :: 0 <= i < |r| ==> r[i] == lo + i
  {
    if lo < hi then seq(hi - lo, i requires 0 <= i < hi - lo => lo + i) else []
  }

  predicate ValidSplit(split: string) {
    split == "train" || split == "test"
  }

  /** The session indices of one split for a subject with `n` sessions. */
  function SessionsFor(split: string, n: int): (r: Result<seq<int>>)
    ensures r.Ok? <==> ValidSplit(split)
    ensures r.Err? ==> r.error == UnrecognizedSplit(split)
  {
    if split == "train" then Ok(Range(0, n - 3))
    else if split == "test" then Ok(Range(n - 3, n))
    else Err(UnrecognizedSplit(split))
  }

  /** The sessions that subject `subid` contributes to a (valid) split. */
  function Sessions(split: string, subid: nat): (s: seq<int>)
    requires ValidSplit(split) && subid < NUM_SUBS
    ensures SessionsFor(split, SessionCount(subid)) == Ok(s)
    ensures |s| >= 3
  {
    SessionsFor(split, SessionCount(subid)).value
  }

  predicate Increasing(s: seq<int>) {
    forall i, j :: 0 <= i < j < |s| ==> s[i] < s[j]
  }

  lemma RangeSplit(lo: int, mid: int, hi: int)
    requires lo <= mid <= hi
    ensures Range(lo, mid) + Range(mid, hi) == Range(lo, hi)
  {
    var a, b, c := Range(lo, mid), Range(mid, hi), Range(lo, hi);
    assert |a + b| == |c|;
    forall i | 0 <= i < |c| ensures (a + b)[i] == c[i] {
      if i < |a| { assert (a + b)[i] == a[i]; } else { assert (a + b)[i] == b[i - |a|]; }
    }
  }

  /**
   * The train and test ranges, in this order, are exactly `range(n)`; they are
   * disjoint, the test range has three sessions and the train range the rest.
   * Any other split is an error whatever `n` is.
   */
  lemma {:induction false} SplitPartition(n: int, split: string)
    requires n >= 3
    ensures SessionsFor("train", n).Ok? && SessionsFor("test", n).Ok?
    ensures SessionsFor("train", n).value + SessionsFor("test", n).value == Range(0, n)
    ensures |SessionsFor("test", n).value| == 3 && |SessionsFor("train", n).value| == n - 3
    ensures forall s :: s in SessionsFor("train", n).value <==> 0 <= s < n - 3
    ensures forall s :: s in SessionsFor("test", n).value <==> n - 3 <= s < n
    ensures forall s :: !(s in SessionsFor("train", n).value && s in SessionsFor("test", n).value)
    ensures !ValidSplit(split) ==> SessionsFor(split, n) == Err(UnrecognizedSplit(split))
  {
    RangeSplit(0, n - 3, n);
    var train, test := Range(0, n - 3), Range(n - 3, n);
    forall s ensures s in train <==> 0 <= s < n - 3 {
      if 0 <= s < n - 3 { assert train[s] == s; }
    }
    forall s ensures s in test <==> n - 3 <= s < n {
      if n - 3 <= s < n { assert test[s - (n - 3)] == s; }
    }
  }

  lemma RangeIncreasing(lo: int, hi: int)
    ensures Increasing(Range(lo, hi))
  {
  }

  /** The flat trial id of within-session trial `ii` of session `sesid`. */
  function TrialId(sesid: int, ii: int): int {
    sesid * TRIALS_PER_SESSION + ii
  }

  /** A within-session index below 750 can be read back from the trial id. */
  lemma TrialIdDecode(sesid: int, ii: int)
    requires 0 <= ii < TRIALS_PER_SESSION
    ensures TrialId(sesid, ii) / TRIALS_PER_SESSION == sesid
    ensures TrialId(sesid, ii) % TRIALS_PER_SESSION == ii
  {
    TrialsPerSession();
    var x := TrialId(sesid, ii);
    assert x == 750 * sesid + ii;
    var q, r := x / 750, x % 750;
    assert x == 750 * q + r && 0 <= r < 750;
    assert -750 < 750 * (q - sesid) < 750;
  }

  /** Distinct (session, trial) pairs get distinct ids. */
  lemma TrialIdInjective(s1: int, i1: int, s2: int, i2: int)
    requires 0 <= i1 < TRIALS_PER_SESSION && 0 <= i2 < TRIALS_PER_SESSION
    requires TrialId(s1, i1) == TrialId(s2, i2)
    ensures s1 == s2 && i1 == i2
  {
    TrialIdDecode(s1, i1);
    TrialIdDecode(s2, i2);
  }

  lemma TrialIdInRange(sesid: int, ii: int)
    requires 0 <= sesid < MAX_SESSIONS && 0 <= ii < TRIALS_PER_SESSION
    ensures 0 <= TrialId(sesid, ii) < NUM_TRIALS
  {
  }

  // ===================================================================
  // Record enumeration order
  // ===================================================================

  /** The identity of one produced record: subject index, session, flat trial id. */
  datatype TrialKey = TrialKey(subjectId: nat, sessionId: int, trialId: int)

  /** Lexicographic order on (subject, session, trial). */
  predicate KeyLess(a: TrialKey, b: TrialKey) {
    a.subjectId < b.subjectId
    || (a.subjectId == b.subjectId
        && (a.sessionId < b.sessionId || (a.sessionId == b.sessionId && a.trialId < b.trialId)))
  }

  predicate StrictlyAscending(s: seq<TrialKey>) {
    forall i, j :: 0 <= i < j < |s| ==> KeyLess(s[i], s[j])
  }

  /** Key `k` is trial number `ii < rows(...)` of its own session. */
  predicate InSession(k: TrialKey, rows: (nat, int) -> nat) {
    exists ii :: 0 <= ii < rows(k.subjectId, k.sessionId) && k.trialId == TrialId(k.sessionId, ii)
  }

  /** The keys of the first `n` rows of one session. */
  function SessionKeys(subid: nat, sesid: int, n: nat): seq<TrialKey> {
    if n == 0 then [] else SessionKeys(subid, sesid, n - 1) + [TrialKey(subid, sesid, TrialId(sesid, n - 1))]
  }

  /** The keys of the first `count` of the given sessions of one subject, in list order. */
  function SubjectKeys(subid: nat, sessions: seq<int>, count: nat, rows: (nat, int) -> nat): seq<TrialKey>
    requires count <= |sessions|
  {
    if count == 0 then []
    else
      var sesid := sessions[count - 1];
      SubjectKeys(subid, sessions, count - 1, rows) + SessionKeys(subid, sesid, rows(subid, sesid))
  }

  /** The keys of the first `count` subjects of a split. */
  function SubjectsKeys(split: string, count: nat, rows: (nat, int) -> nat): seq<TrialKey>
    requires ValidSplit(split) && count <= NUM_SUBS
  {
    if count == 0 then []
    else
      var sessions := Sessions(split, count - 1);
      SubjectsKeys(split, count - 1, rows) + SubjectKeys(count - 1, sessions, |sessions|, rows)
  }

  function FirstSession(split: string): int
    requires ValidSplit(split)
  {
    Sessions(split, 0)[0]
  }

  /**
   * What the generator yields, and the error it ends with if any: nothing and
   * a ValueError for an unknown split; in debug mode the first session of the
   * first subject only; otherwise every session of every subject.
   */
  function ExpectedStream(split: string, debug: bool, rows: (nat, int) -> nat): (seq<TrialKey>, Option<Error>) {
    if !ValidSplit(split) then ([], Some(UnrecognizedSplit(split)))
    else if debug then (SessionKeys(0, FirstSession(split), rows(0, FirstSession(split))), None)
    else (SubjectsKeys(split, NUM_SUBS, rows), None)
  }

  /**
   * The generator's loops: subjects, then the split's sessions, then the rows
   * of the session's activity (`rows` gives their number), returning after the
   * first session when `debug` is set.
   */
  method GenerateDataset(split: string, debug: bool, rows: (nat, int) -> nat)
    returns (keys: seq<TrialKey>, error: Option<Error>)
    ensures (keys, error) == ExpectedStream(split, debug, rows)
  {
    keys := [];
    for subid := 0 to NUM_SUBS
      invariant subid > 0 ==> ValidSplit(split)
      invariant debug ==> subid == 0
      invariant ValidSplit(split) ==> keys == SubjectsKeys(split, subid, rows)
      invariant !ValidSplit(split) ==> keys == []
    {
      var found := SessionsFor(split, SessionCount(subid));
      if found.Err? {
        return keys, Some(found.error);
      }
      var sessions := found.value;
      ghost var done := keys;
      for j := 0 to |sessions|
        invariant debug ==> j == 0
        invariant keys == done + SubjectKeys(subid, sessions, j, rows)
      {
        var sesid := sessions[j];
        ghost var before := keys;
        for ii := 0 to rows(subid, sesid)
          invariant keys == before + SessionKeys(subid, sesid, ii)
        {
          keys := keys + [TrialKey(subid, sesid, TrialId(sesid, ii))];
        }
        AppendAssoc(done, SubjectKeys(subid, sessions, j, rows), SessionKeys(subid, sesid, rows(subid, sesid)));
        if debug {
          assert keys == SessionKeys(0, sesid, rows(0, sesid));
          return keys, None;
        }
      }
    }
    error := None;
  }

  lemma AppendAssoc<T>(a: seq<T>, b: seq<T>, c: seq<T>)
    ensures (a + b) + c == a + (b + c)
  {
  }

  lemma AscendingAppend(a: seq<TrialKey>, b: seq<TrialKey>)
    requires StrictlyAscending(a) && StrictlyAscending(b)
    requires forall x, y :: x in a && y in b ==> KeyLess(x, y)
    ensures StrictlyAscending(a + b)
  {
    forall i, j | 0 <= i < j < |a + b| ensures KeyLess((a + b)[i], (a + b)[j]) {
      if j < |a| {
        assert (a + b)[i] == a[i] && (a + b)[j] == a[j];
      } else if i >= |a| {
        assert (a + b)[i] == b[i - |a|] && (a + b)[j] == b[j - |a|];
      } else {
        assert (a + b)[i] == a[i] && (a + b)[j] == b[j - |a|];
      }
    }
  }

  /** Row `ii` of a session has key (subid, sesid, sesid * 750 + ii). */
  lemma {:induction false} SessionKeysAt(subid: nat, sesid: int, n: nat)
    ensures |SessionKeys(subid, sesid, n)| == n
    ensures forall ii :: 0 <= ii < n ==> SessionKeys(subid, sesid, n)[ii] == TrialKey(subid, sesid, TrialId(sesid, ii))
  {
    if n > 0 {
      SessionKeysAt(subid, sesid, n - 1);
    }
  }

  lemma SessionKeysFacts(subid: nat, sesid: int, n: nat)
    ensures StrictlyAscending(SessionKeys(subid, sesid, n))
    ensures forall k :: k in SessionKeys(subid, sesid, n) <==>
      k.subjectId == subid && k.sessionId == sesid && exists ii :: 0 <= ii < n && k.trialId == TrialId(sesid, ii)
  {
    var s := SessionKeys(subid, sesid, n);
    SessionKeysAt(subid, sesid, n);
    forall k ensures k in s <==> k.subjectId == subid && k.sessionId == sesid && exists ii :: 0 <= ii < n && k.trialId == TrialId(sesid, ii) {
      if k.subjectId == subid && k.sessionId == sesid && exists ii :: 0 <= ii < n && k.trialId == TrialId(sesid, ii) {
        var ii :| 0 <= ii < n && k.trialId == TrialId(sesid, ii);
        assert s[ii] == k;
      }
    }
  }

  /** The keys of one subject: ascending, and exactly the rows of its first `count` sessions. */
  lemma {:induction false} SubjectKeysFacts(subid: nat, sessions: seq<int>, count: nat, rows: (nat, int) -> nat)
    requires Increasing(sessions) && count <= |sessions|
    ensures StrictlyAscending(SubjectKeys(subid, sessions, count, rows))
    ensures forall k :: k in SubjectKeys(subid, sessions, count, rows) <==>
      k.subjectId == subid && k.sessionId in sessions[..count] && InSession(k, rows)
  {
    if count > 0 {
      var last := sessions[count - 1];
      SubjectKeysFacts(subid, sessions, count - 1, rows);
      SessionKeysFacts(subid, last, rows(subid, last));
      var a, b := SubjectKeys(subid, sessions, count - 1, rows), SessionKeys(subid, last, rows(subid, last));
      assert sessions[..count] == sessions[..count - 1] + [last];
      forall x, y | x in a && y in b ensures KeyLess(x, y) {
        var i :| 0 <= i < count - 1 && sessions[..count - 1][i] == x.sessionId;
        assert sessions[i] == x.sessionId;
      }
      AscendingAppend(a, b);
    }
  }

  /** The keys of the first `count` subjects: ascending, and exactly their sessions' rows. */
  lemma {:induction false} SubjectsKeysFacts(split: string, count: nat, rows: (nat, int) -> nat)
    requires ValidSplit(split) && count <= NUM_SUBS
    ensures StrictlyAscending(SubjectsKeys(split, count, rows))
    ensures forall k :: k in SubjectsKeys(split, count, rows) <==>
      k.subjectId < count && k.sessionId in Sessions(split, k.subjectId) && InSession(k, rows)
  {
    if count > 0 {
      SubjectsKeysFacts(split, count - 1, rows);
      var sessions := Sessions(split, count - 1);
      RangeIncreasing(0, SessionCount(count - 1) - 3);
      RangeIncreasing(SessionCount(count - 1) - 3, SessionCount(count - 1));
      SubjectKeysFacts(count - 1, sessions, |sessions|, rows);
      assert sessions[..|sessions|] == sessions;
      AscendingAppend(SubjectsKeys(split, count - 1, rows), SubjectKeys(count - 1, sessions, |sessions|, rows));
    }
  }

  /**
   * The produced keys are in ascending (subject, session, trial) order, hence
   * without repetition, and are exactly the rows of the split's sessions of
   * every subject (of the first session of subject 0 in debug mode). An
   * unknown split yields nothing and ends with the error.
   */
  lemma StreamOrderAndContents(split: string, debug: bool, rows: (nat, int) -> nat)
    ensures StrictlyAscending(ExpectedStream(split, debug, rows).0)
    ensures !ValidSplit(split) ==> ExpectedStream(split, debug, rows) == ([], Some(UnrecognizedSplit(split)))
    ensures ValidSplit(split) && !debug ==>
      ExpectedStream(split, debug, rows).1 == None &&
      forall k :: k in ExpectedStream(split, debug, rows).0 <==>
        k.subjectId < NUM_SUBS && k.sessionId in Sessions(split, k.subjectId) && InSession(k, rows)
    ensures ValidSplit(split) && debug ==>
      ExpectedStream(split, debug, rows).1 == None &&
      |ExpectedStream(split, debug, rows).0| == rows(0, FirstSession(split)) &&
      forall k :: k in ExpectedStream(split, debug, rows).0 <==>
        k.subjectId == 0 && k.sessionId == FirstSession(split) && InSession(k, rows)
  {
    if ValidSplit(split) {
      if debug {
        var first := FirstSession(split);
        SessionKeysFacts(0, first, rows(0, first));
        SessionKeysAt(0, first, rows(0, first));
      } else {
        SubjectsKeysFacts(split, NUM_SUBS, rows);
      }
    }
  }

  /** The first session of subject 0, where a debug run stops: 0 for train, 37 for test. */
  lemma FirstSessionOfSplit()
    ensures FirstSession("train") == 0
    ensures FirstSession("test") == 37
  {
    SubjectTable(0);
    assert SUBS[0] == "subj01";
  }

  /**
   * With at most 750 rows per session, every produced trial id lies in
   * [0, NUM_TRIALS) and decodes back to its session and row.
   */
  lemma StreamTrialIds(split: string, debug: bool, rows: (nat, int) -> nat)
    requires forall s, ses :: rows(s, ses) <= TRIALS_PER_SESSION
    ensures forall k :: k in ExpectedStream(split, debug, rows).0 ==>
      0 <= k.trialId < NUM_TRIALS && k.trialId / TRIALS_PER_SESSION == k.sessionId &&
      k.trialId % TRIALS_PER_SESSION < rows(k.subjectId, k.sessionId)
  {
    StreamOrderAndContents(split, debug, rows);
    forall k | k in ExpectedStream(split, debug, rows).0
      ensures 0 <= k.trialId < NUM_TRIALS && k.trialId / TRIALS_PER_SESSION == k.sessionId &&
        k.trialId % TRIALS_PER_SESSION < rows(k.subjectId, k.sessionId)
    {
      var ii :| 0 <= ii < rows(k.subjectId, k.sessionId) && k.trialId == TrialId(k.sessionId, ii);
      var n := SessionCount(k.subjectId);
      SplitPartition(n, split);
      assert 0 <= k.sessionId < n;
      TrialIdDecode(k.sessionId, ii);
      TrialIdInRange(k.sessionId, ii);
    }
  }

  // ===================================================================
  // 8-bit quantizer
  // ===================================================================

  /** `np.clip(x, lo, hi)`. */
  function Clip(x: real, lo: real, hi: real): (c: real)
    requires lo <= hi
    ensures lo <= c <= hi
    ensures lo <= x <= hi ==> c == x
    ensures x <= lo ==> c == lo
    ensures x >= hi ==> c == hi
  {
    if x < lo then lo else if x > hi then hi else x
  }

  /**
   * Clip to [vmin, vmax], rescale linearly to [0, 255] and truncate to an
   * integer. After clipping the scaled value is non-negative, so truncation
   * toward zero is the floor.
   */
  function Quantize(x: real, vmin: real, vmax: real): (q: int)
    requires vmin < vmax
    ensures 0 <= q <= 255
    ensures x <= vmin ==> q == 0
    ensures x >= vmax ==> q == 255
  {
    var t := (Clip(x, vmin, vmax) - vmin) / (vmax - vmin);
    assert 0.0 <= t <= 1.0 && (x >= vmax ==> t == 1.0) by {
      FractionBounds(Clip(x, vmin, vmax) - vmin, vmax - vmin);
    }
    (255.0 * t).Floor
  }

  lemma FractionBounds(a: real, d: real)
    requires 0.0 <= a <= d && d > 0.0
    ensures 0.0 <= a / d <= 1.0
    ensures a == d ==> a / d == 1.0
  {
  }

  lemma FractionMonotone(a: real, b: real, d: real)
    requires a <= b && d > 0.0
    ensures a / d <= b / d
  {
  }

  /** Quantization preserves order. */
  lemma QuantizeMonotone(a: real, b: real, vmin: real, vmax: real)
    requires vmin < vmax && a <= b
    ensures Quantize(a, vmin, vmax) <= Quantize(b, vmin, vmax)
  {
    var ca, cb := Clip(a, vmin, vmax), Clip(b, vmin, vmax);
    FractionMonotone(ca - vmin, cb - vmin, vmax - vmin);
    var ta, tb := (ca - vmin) / (vmax - vmin), (cb - vmin) / (vmax - vmin);
    assert 255.0 * ta <= 255.0 * tb;
  }

  /**
   * A value inside [vmin, vmax) lands in bin q: with bins (vmax - vmin) / 255
   * wide, x - vmin lies between q and q + 1 bin widths.
   */
  lemma QuantizeBin(x: real, vmin: real, vmax: real)
    requires vmin <= x < vmax
    ensures var q := Quantize(x, vmin, vmax);
      q as real * (vmax - vmin) <= 255.0 * (x - vmin) < (q + 1) as real * (vmax - vmin)
  {
    var q := Quantize(x, vmin, vmax);
    var a, d := x - vmin, vmax - vmin;
    var t := a / d;
    assert Clip(x, vmin, vmax) == x;
    assert q == (255.0 * t).Floor;
    assert t * d == a;
    var u := 255.0 * t;
    assert u * d == 255.0 * a;
    BinBounds(q as real, u, (q + 1) as real, d, a);
  }

  /** The bin bounds lo <= u < hi, scaled by d > 0, where u * d is 255 * a. */
  lemma BinBounds(lo: real, u: real, hi: real, d: real, a: real)
    requires lo <= u < hi && d > 0.0 && u * d == 255.0 * a
    ensures lo * d <= 255.0 * a < hi * d
  {
    ScaleBetween(lo, u, hi, d);
  }

  /** Multiplying lo <= u < hi by a positive d keeps both inequalities. */
  lemma ScaleBetween(lo: real, u: real, hi: real, d: real)
    requires lo <= u < hi && d > 0.0
    ensures lo * d <= u * d < hi * d
  {
    MulLeBoth(lo, u, d);
    MulLtBoth(u, hi, d);
  }

  lemma MulLeBoth(a: real, b: real, c: real)
    requires a <= b && c > 0.0
    ensures a * c <= b * c
  {
  }

  lemma MulLtBoth(a: real, b: real, c: real)
    requires a < b && c > 0.0
    ensures a * c < b * c
  {
  }

  /** A masked pixel (fill 0.0) quantized with the generator's range becomes 127, not 0. */
  lemma QuantizeFill()
    ensures Quantize(0.0, -VMAX, VMAX) == 127
  {
    assert (Clip(0.0, -VMAX, VMAX) - -VMAX) / (VMAX - -VMAX) == 0.5;
    assert 255.0 * 0.5 == 127.5;
  }

  // ===================================================================
  // Raster grids: mask, quantize, flip
  // ===================================================================

  type Grid<T> = seq<seq<T>>

  predicate SameShape<A, B>(g: Grid<A>, m: Grid<B>) {
    |g| == |m| && forall r :: 0 <= r < |g| ==> |g[r]| == |m[r]|
  }

  /** `np.flipud`: the rows in reverse order. */
  function FlipUd<T>(g: Grid<T>): (f: Grid<T>)
    ensures |f| == |g|
  {
    if |g| == 0 then [] else FlipUd(g[1..]) + [g[0]]
  }

  /** Row r of the flipped grid is row H - 1 - r of the grid. */
  lemma {:induction false} FlipUdAt<T>(g: Grid<T>, r: nat)
    requires r < |g|
    ensures FlipUd(g)[r] == g[|g| - 1 - r]
  {
    if r < |g| - 1 {
      FlipUdAt(g[1..], r);
    }
  }

  /** Flipping twice gives back the grid; flipping keeps every row and its width. */
  lemma FlipUdInvolutive<T>(g: Grid<T>)
    ensures FlipUd(FlipUd(g)) == g
    ensures forall r :: 0 <= r < |g| ==> |FlipUd(g)[r]| == |g[|g| - 1 - r]|
  {
    var f := FlipUd(g);
    forall r | 0 <= r < |g| ensures FlipUd(f)[r] == g[r] && f[r] == g[|g| - 1 - r] {
      FlipUdAt(f, r);
      FlipUdAt(g, |g| - 1 - r);
      FlipUdAt(g, r);
    }
  }

  /** The resampler's result of `apply_mask`: cells outside the raster mask become `fill`. */
  function ApplyMask(g: Grid<real>, mask: Grid<bool>, fill: real): (out: Grid<real>)
    requires SameShape(g, mask)
    ensures SameShape(out, mask)
    ensures forall r, c :: 0 <= r < |mask| && 0 <= c < |mask[r]| ==>
      out[r][c] == if mask[r][c] then g[r][c] else fill
  {
    seq(|g|, r requires 0 <= r < |g| =>
      seq(|g[r]|, c requires 0 <= c < |g[r]| => if mask[r][c] then g[r][c] else fill))
  }

  /** `quantize` applied elementwise. */
  function QuantizeGrid(g: Grid<real>, vmin: real, vmax: real): (out: Grid<int>)
    requires vmin < vmax
    ensures SameShape(out, g)
    ensures forall r, c :: 0 <= r < |g| && 0 <= c < |g[r]| ==> out[r][c] == Quantize(g[r][c], vmin, vmax)
  {
    seq(|g|, r requires 0 <= r < |g| =>
      seq(|g[r]|, c requires 0 <= c < |g[r]| => Quantize(g[r][c], vmin, vmax)))
  }

  /**
   * The subject's fitted resampler: `transform` maps one activity row to a grid
   * (its fitting is external), `mask` is its raster mask of cells inside the
   * cortical patch.
   */
  datatype Resampler = Resampler(transform: seq<real> -> Grid<real>, mask: Grid<bool>)

  /** Transform, mask with fill 0.0, quantize to [0, 255] over [-VMAX, VMAX], flip. */
  function Rasterize(res: Resampler, row: seq<real>): Result<Grid<int>> {
    var g := res.transform(row);
    if SameShape(g, res.mask) then Ok(FlipUd(QuantizeGrid(ApplyMask(g, res.mask, 0.0), -VMAX, VMAX)))
    else Err(RasterShapeMismatch)
  }

  /**
   * The raster map has the raster mask's height; input cell (r, c) is output
   * cell (H - 1 - r, c); it holds the quantized activity inside the mask and
   * 127 (the quantized fill) outside it; every pixel is in [0, 255].
   */
  lemma RasterizePixels(res: Resampler, row: seq<real>)
    ensures Rasterize(res, row).Ok? <==> SameShape(res.transform(row), res.mask)
    ensures Rasterize(res, row).Ok? ==>
      var out, m := Rasterize(res, row).value, res.mask;
      |out| == |m| &&
      forall r, c :: 0 <= r < |m| && 0 <= c < |m[r]| ==>
        |out[|m| - 1 - r]| == |m[r]| &&
        0 <= out[|m| - 1 - r][c] <= 255 &&
        out[|m| - 1 - r][c] == if m[r][c] then Quantize(res.transform(row)[r][c], -VMAX, VMAX) else 127
  {
    var g := res.transform(row);
    if SameShape(g, res.mask) {
      var m := res.mask;
      var q := QuantizeGrid(ApplyMask(g, m, 0.0), -VMAX, VMAX);
      QuantizeFill();
      forall r | 0 <= r < |m| ensures FlipUd(q)[|m| - 1 - r] == q[r] {
        FlipUdAt(q, |m| - 1 - r);
      }
    }
  }

  // ===================================================================
  // Region-of-interest masks and column selection
  // ===================================================================

  /** Number of `true` entries. */
  function Count(mask: seq<bool>): nat {
    if |mask| == 0 then 0 else (if mask[0] then 1 else 0) + Count(mask[1..])
  }

  /** `row[mask]`: the entries at the mask's `true` positions, in order. */
  function Select<T>(row: seq<T>, mask: seq<bool>): (r: seq<T>)
    requires |row| == |mask|
    ensures |r| == Count(mask)
  {
    if |mask| == 0 then [] else (if mask[0] then [row[0]] else []) + Select(row[1..], mask[1..])
  }

  lemma {:induction false} CountAppend(a: seq<bool>, b: seq<bool>)
    ensures Count(a + b) == Count(a) + Count(b)
  {
    if |a| > 0 {
      assert (a + b)[1..] == a[1..] + b;
      CountAppend(a[1..], b);
    } else {
      assert a + b == b;
    }
  }

  lemma {:induction false} CountPrefixBound(mask: seq<bool>, i: nat)
    requires i < |mask| && mask[i]
    ensures Count(mask[..i]) < Count(mask)
  {
    assert mask == mask[..i] + mask[i..];
    CountAppend(mask[..i], mask[i..]);
  }

  /**
   * Entry i of the row is kept iff mask[i], and then it sits at position
   * Count(mask[..i]) of the selection (the number of kept entries before it).
   */
  lemma {:induction false} SelectAt<T>(row: seq<T>, mask: seq<bool>, i: nat)
    requires |row| == |mask| && i < |mask| && mask[i]
    ensures Count(mask[..i]) < |Select(row, mask)|
    ensures Select(row, mask)[Count(mask[..i])] == row[i]
  {
    CountPrefixBound(mask, i);
    if i > 0 {
      assert mask[..i][1..] == mask[1..][..i - 1];
      SelectAt(row[1..], mask[1..], i - 1);
    }
  }

  /** Selecting from a concatenated row with the concatenated mask selects part by part. */
  lemma {:induction false} SelectAppend<T>(x: seq<T>, y: seq<T>, mx: seq<bool>, my: seq<bool>)
    requires |x| == |mx| && |y| == |my|
    ensures Select(x + y, mx + my) == Select(x, mx) + Select(y, my)
  {
    if |mx| == 0 {
      assert x + y == y && mx + my == my;
    } else {
      assert (x + y)[1..] == x[1..] + y && (mx + my)[1..] == mx[1..] + my;
      SelectAppend(x[1..], y, mx[1..], my);
    }
  }

  /** The combined mask: left hemisphere, then right. */
  function CombineMasks(lh: seq<bool>, rh: seq<bool>): (combined: seq<bool>)
    ensures |combined| == |lh| + |rh| && Count(combined) == Count(lh) + Count(rh)
    ensures combined[..|lh|] == lh && combined[|lh|..] == rh
  {
    CountAppend(lh, rh);
    lh + rh
  }

  // ===================================================================
  // Per-session activity
  // ===================================================================

  type Matrix = seq<seq<real>>

  datatype HemiPair<T> = HemiPair(lh: T, rh: T) {
    function Get(h: Hemi): T {
      match h
      case Lh => lh
      case Rh => rh
    }
  }

  const HEMIS: seq<Hemi> := [Lh, Rh]

  predicate Rectangular<T>(m: Grid<T>, width: nat) {
    forall i :: 0 <= i < |m| ==> |m[i]| == width
  }

  /** `activity[:, mask]`. */
  function SelectColumns(m: Matrix, mask: seq<bool>): (out: Matrix)
    requires Rectangular(m, |mask|)
    ensures |out| == |m| && Rectangular(out, Count(mask))
    ensures forall i :: 0 <= i < |m| ==> out[i] == Select(m[i], mask)
  {
    seq(|m|, i requires 0 <= i < |m| => Select(m[i], mask))
  }

  function Column(m: Matrix, j: nat): seq<real>
    requires forall i :: 0 <= i < |m| ==> j < |m[i]|
  {
    seq(|m|, i requires 0 <= i < |m| => m[i][j])
  }

  /**
   * Z-scoring along the trial axis, one column at a time: `zscore(col, i)` is
   * the standardised value of trial i given the whole column `col`.
   */
  function Scale(m: Matrix, width: nat, zscore: (seq<real>, nat) -> real): (out: Matrix)
    requires Rectangular(m, width)
    ensures |out| == |m| && Rectangular(out, width)
    ensures forall i, j :: 0 <= i < |m| && 0 <= j < width ==> out[i][j] == zscore(Column(m, j), i)
  {
    seq(|m|, i requires 0 <= i < |m| => seq(width, j requires 0 <= j < width => zscore(Column(m, j), i)))
  }

  /** `np.concatenate([a, b], axis=1)`. */
  function HConcat(a: Matrix, b: Matrix): (out: Matrix)
    requires |a| == |b|
    ensures |out| == |a| && forall i :: 0 <= i < |a| ==> out[i] == a[i] + b[i]
  {
    seq(|a|, i requires 0 <= i < |a| => a[i] + b[i])
  }

  /** One hemisphere's contribution: its ROI columns, z-scored within the session. */
  function HemiActivity(raw: Matrix, mask: seq<bool>, zscore: (seq<real>, nat) -> real): Matrix
    requires Rectangular(raw, |mask|)
  {
    Scale(SelectColumns(raw, mask), Count(mask), zscore)
  }

  /** What `load_session_activity` returns for the raw per-hemisphere arrays of one session. */
  function SessionActivity(raw: HemiPair<Matrix>, masks: HemiPair<seq<bool>>,
                           zscore: (seq<real>, nat) -> real): Result<Matrix>
  {
    if !Rectangular(raw.lh, |masks.lh|) then Err(ColumnMismatch(Lh))
    else if |raw.lh| == 0 || Count(masks.lh) == 0 then Err(EmptyScaleInput(Lh))
    else if !Rectangular(raw.rh, |masks.rh|) then Err(ColumnMismatch(Rh))
    else if |raw.rh| == 0 || Count(masks.rh) == 0 then Err(EmptyScaleInput(Rh))
    else if |raw.lh| != |raw.rh| then Err(RowMismatch)
    else Ok(HConcat(HemiActivity(raw.lh, masks.lh, zscore), HemiActivity(raw.rh, masks.rh, zscore)))
  }

  /** The loop over the two hemispheres, then the concatenation. */
  method LoadSessionActivity(raw: HemiPair<Matrix>, masks: HemiPair<seq<bool>>,
                             zscore: (seq<real>, nat) -> real) returns (r: Result<Matrix>)
    ensures r == SessionActivity(raw, masks, zscore)
  {
    var hemiActivities: seq<Matrix> := [];
    assert HEMIS[0] == Lh && HEMIS[1] == Rh;
    for i := 0 to |HEMIS|
      invariant |hemiActivities| == i
      invariant forall k :: 0 <= k < i ==>
        Rectangular(raw.Get(HEMIS[k]), |masks.Get(HEMIS[k])|) &&
        |raw.Get(HEMIS[k])| > 0 && Count(masks.Get(HEMIS[k])) > 0 &&
        hemiActivities[k] == HemiActivity(raw.Get(HEMIS[k]), masks.Get(HEMIS[k]), zscore)
    {
      var hemi := HEMIS[i];
      var activity := raw.Get(hemi);
      var mask := masks.Get(hemi);
      if !Rectangular(activity, |mask|) {
        return Err(ColumnMismatch(hemi));
      }
      if |activity| == 0 || Count(mask) == 0 {
        return Err(EmptyScaleInput(hemi));
      }
      activity := SelectColumns(activity, mask);
      activity := Scale(activity, Count(mask), zscore);
      hemiActivities := hemiActivities + [activity];
    }
    if |hemiActivities[0]| != |hemiActivities[1]| {
      return Err(RowMismatch);
    }
    r := Ok(HConcat(hemiActivities[0], hemiActivities[1]));
  }

  lemma ColumnOfHConcat(a: Matrix, b: Matrix, wa: nat, wb: nat, j: nat)
    requires |a| == |b| && Rectangular(a, wa) && Rectangular(b, wb) && j < wa + wb
    ensures Column(HConcat(a, b), j) == if j < wa then Column(a, j) else Column(b, j - wa)
  {
  }

  /** Z-scoring column by column commutes with putting the hemispheres side by side. */
  lemma ScaleHConcat(a: Matrix, b: Matrix, wa: nat, wb: nat, zscore: (seq<real>, nat) -> real)
    requires |a| == |b| && Rectangular(a, wa) && Rectangular(b, wb)
    ensures Rectangular(HConcat(a, b), wa + wb)
    ensures Scale(HConcat(a, b), wa + wb, zscore) == HConcat(Scale(a, wa, zscore), Scale(b, wb, zscore))
  {
    var lhs, rhs := Scale(HConcat(a, b), wa + wb, zscore), HConcat(Scale(a, wa, zscore), Scale(b, wb, zscore));
    forall i | 0 <= i < |a| ensures lhs[i] == rhs[i] {
      forall j | 0 <= j < wa + wb ensures lhs[i][j] == rhs[i][j] {
        ColumnOfHConcat(a, b, wa, wb, j);
      }
    }
  }

  /**
   * `load_session_activity` succeeds iff both raw arrays have the mask's
   * width and the same, non-zero, number of trials and both masks select at
   * least one vertex; its result then has one row per
   * trial, Count(lh) + Count(rh) columns, and equals selecting the columns of
   * the side-by-side raw arrays with the combined mask and z-scoring those:
   * the left hemisphere's ROI columns in order, then the right's.
   */
  lemma SessionActivityCombined(raw: HemiPair<Matrix>, masks: HemiPair<seq<bool>>,
                                zscore: (seq<real>, nat) -> real)
    ensures SessionActivity(raw, masks, zscore).Ok? <==>
      Rectangular(raw.lh, |masks.lh|) && Rectangular(raw.rh, |masks.rh|) && |raw.lh| == |raw.rh| &&
      |raw.lh| > 0 && Count(masks.lh) > 0 && Count(masks.rh) > 0
    ensures SessionActivity(raw, masks, zscore).Ok? ==>
      var m, combined := SessionActivity(raw, masks, zscore).value, CombineMasks(masks.lh, masks.rh);
      |m| == |raw.lh| && Rectangular(m, Count(masks.lh) + Count(masks.rh)) &&
      Rectangular(HConcat(raw.lh, raw.rh), |combined|) &&
      m == Scale(SelectColumns(HConcat(raw.lh, raw.rh), combined), Count(combined), zscore)
    ensures Rectangular(raw.lh, |masks.lh|) && (|raw.lh| == 0 || Count(masks.lh) == 0) ==>
      SessionActivity(raw, masks, zscore) == Err(EmptyScaleInput(Lh))
  {
    if SessionActivity(raw, masks, zscore).Ok? {
      var lh, rh := masks.lh, masks.rh;
      var combined := CombineMasks(lh, rh);
      var both := HConcat(raw.lh, raw.rh);
      var sl, sr := SelectColumns(raw.lh, lh), SelectColumns(raw.rh, rh);
      forall i | 0 <= i < |both| ensures SelectColumns(both, combined)[i] == HConcat(sl, sr)[i] {
        SelectAppend(raw.lh[i], raw.rh[i], lh, rh);
      }
      assert SelectColumns(both, combined) == HConcat(sl, sr);
      ScaleHConcat(sl, sr, Count(lh), Count(rh), zscore);
    }
  }

  // ===================================================================
  // Repetition fields and record assembly
  // ===================================================================

  /** Python's `p in s` for strings: `p` occurs in `s` as a substring. */
  predicate Contains(s: string, p: string) {
    (|p| <= |s| && s[..|p|] == p) || (|s| > 0 && Contains(s[1..], p))
  }

  /** `p` occurs in `s` starting at offset `i`. */
  predicate OccursAt(s: string, p: string, i: int) {
    0 <= i && i + |p| <= |s| && s[i..i + |p|] == p
  }

  /** `Contains` means an occurrence at some offset. */
  lemma {:induction false} ContainsOccurrence(s: string, p: string)
    ensures Contains(s, p) <==> exists i :: OccursAt(s, p, i)
  {
    if |s| > 0 {
      ContainsOccurrence(s[1..], p);
      if exists i :: OccursAt(s, p, i) {
        var i :| OccursAt(s, p, i);
        if i > 0 {
          assert s[1..][i - 1..i - 1 + |p|] == p;
          assert OccursAt(s[1..], p, i - 1);
        }
      }
      if Contains(s[1..], p) && !(|p| <= |s| && s[..|p|] == p) {
        var i :| OccursAt(s[1..], p, i);
        assert s[i + 1..i + 1 + |p|] == p;
        assert OccursAt(s, p, i + 1);
      }
      if |p| <= |s| && s[..|p|] == p {
        assert OccursAt(s, p, 0);
      }
    } else {
      if |p| <= |s| {
        assert s[..|p|] == p;
        assert OccursAt(s, p, 0);
      }
    }
  }

  const REP_MARKER: string := "_rep"

  /** The `repetitions` entry: the trial-info fields whose key contains "_rep". */
  function Repetitions<V>(info: map<string, V>): map<string, V> {
    map k | k in info && Contains(k, REP_MARKER) :: info[k]
  }

  /**
   * `repetitions` is a sub-map of the trial info holding exactly the keys in
   * which "_rep" occurs, each with its original value.
   */
  lemma RepetitionsSubmap<V>(info: map<string, V>)
    ensures Repetitions(info).Keys <= info.Keys
    ensures forall k :: k in info ==>
      (k in Repetitions(info) <==> exists i :: OccursAt(k, "_rep", i))
    ensures forall k :: k in Repetitions(info) ==> Repetitions(info)[k] == info[k]
  {
    forall k | k in info {
      ContainsOccurrence(k, REP_MARKER);
    }
  }

  /** One trial-info or annotation value. */
  datatype Value = IntVal(i: int) | BoolVal(b: bool) | TextVal(s: string) | ListVal(items: seq<Value>)

  const TRIAL_FIELDS: seq<string> := ["flagged", "BOLD5000", "shared1000"]
  const ANNOTATION_FIELDS: seq<string> := ["coco_split", "coco_id", "objects", "captions"]

  /** `{k: m[k] for k in keys}`: a KeyError on the first key that is missing. */
  function Pick(keys: seq<string>, m: map<string, Value>): (r: Result<map<string, Value>>)
    ensures r.Ok? <==> forall k :: k in keys ==> k in m
    ensures r.Ok? ==> r.value.Keys == (set k | k in keys) && forall k :: k in r.value ==> r.value[k] == m[k]
    ensures r.Err? ==> exists k :: k in keys && k !in m && r.error == MissingField(k)
  {
    if |keys| == 0 then Ok(map[])
    else if keys[0] !in m then Err(MissingField(keys[0]))
    else match Pick(keys[1..], m)
      case Err(e) => Err(e)
      case Ok(rest) => Ok(rest[keys[0] := m[keys[0]]])
  }

  /**
   * The position `images[nsdId]` reads in a store of `n` images: indexing
   * follows Python, so a negative id counts from the end; an id outside
   * [-n, n) is an IndexError.
   */
  function ImageSlot(nsdId: int, n: nat): (slot: Option<nat>)
    ensures slot.Some? <==> -(n as int) <= nsdId < n
    ensures slot.Some? ==> slot.value < n && slot.value == nsdId % n
  {
    if 0 <= nsdId < n then
      SmallRemainder(nsdId, n);
      Some(nsdId)
    else if -(n as int) <= nsdId < 0 then
      NegativeRemainder(nsdId, n);
      Some(nsdId + n)
    else None
  }

  lemma SmallRemainder(x: int, n: int)
    requires n > 0 && 0 <= x < n
    ensures x % n == x
  {
    var q, r := x / n, x % n;
    assert x == q * n + r && 0 <= r < n;
    assert -n < q * n < n;
    ProductBetween(q, n);
  }

  lemma NegativeRemainder(x: int, n: int)
    requires n > 0 && -n <= x < 0
    ensures x % n == x + n
  {
    var q, r := x / n, x % n;
    assert x == q * n + r && 0 <= r < n;
    assert (q + 1) * n == x + n - r;
    assert -n < (q + 1) * n < n;
    ProductBetween(q + 1, n);
  }

  /** The only multiple of a positive n strictly between -n and n is 0. */
  lemma ProductBetween(k: int, n: int)
    requires n > 0 && -n < k * n < n
    ensures k == 0
  {
    ProductSign(k, n);
  }

  /** A nonzero multiple of a positive n is at least n away from zero. */
  lemma ProductSign(k: int, n: int)
    requires n > 0
    ensures k >= 1 ==> k * n >= n
    ensures k <= -1 ==> k * n <= -n
  {
    if k >= 1 {
      MulMonotone(1, k, n);
    } else if k <= -1 {
      MulMonotone(k, -1, n);
    }
  }

  lemma MulMonotone(a: int, b: int, n: int)
    requires a <= b && n > 0
    ensures a * n <= b * n
  {
  }

  /** One output record (the stimulus image type is left abstract). */
  datatype Record<Img> = Record(
    subjectId: nat, trialId: int, sessionId: int, nsdId: int,
    image: Img, activity: Grid<int>, subject: string,
    trialFields: map<string, Value>, annotationFields: map<string, Value>,
    repetitions: map<string, Value>)

  /**
   * The record of row `ii` of session `sesid` of subject `subid`, looked up in
   * the trial-info table (keyed by subject index and flat trial id), the image
   * store and the annotation table (keyed by stimulus id), in the order the
   * generator looks them up.
   */
  function AssembleRecord<Img>(subid: nat, sesid: int, ii: nat, act: seq<real>, res: Resampler,
                               stimInfo: map<(nat, int), map<string, Value>>, images: seq<Img>,
                               annotations: map<int, map<string, Value>>): Result<Record<Img>>
    requires subid < NUM_SUBS
  {
    var trialId := TrialId(sesid, ii);
    if (subid, trialId) !in stimInfo then Err(MissingTrialInfo(subid, trialId))
    else
      var info := stimInfo[(subid, trialId)];
      if "nsdId" !in info || !info["nsdId"].IntVal? then Err(MissingField("nsdId"))
      else
        var nsdId := info["nsdId"].i;
        match ImageSlot(nsdId, |images|)
        case None => Err(MissingImage(nsdId))
        case Some(slot) =>
          match Rasterize(res, act)
          case Err(e) => Err(e)
          case Ok(activity) =>
            if nsdId !in annotations then Err(MissingAnnotation(nsdId))
            else match Pick(TRIAL_FIELDS, info)
              case Err(e) => Err(e)
              case Ok(trialFields) =>
                match Pick(ANNOTATION_FIELDS, annotations[nsdId])
                case Err(e) => Err(e)
                case Ok(annotationFields) =>
                  Ok(Record(subid, trialId, sesid, nsdId, images[slot], activity, SUBS[subid],
                            trialFields, annotationFields, Repetitions(info)))
  }

  /**
   * A record is produced iff every lookup succeeds; it then carries the key
   * it was assembled for, the image named by the trial's stimulus id, the
   * rasterized activity, the selected fields from the trial info and the
   * annotations with their values, and the trial info's "_rep" fields.
   */
  lemma AssembledRecord<Img>(subid: nat, sesid: int, ii: nat, act: seq<real>, res: Resampler,
                             stimInfo: map<(nat, int), map<string, Value>>, images: seq<Img>,
                             annotations: map<int, map<string, Value>>)
    requires subid < NUM_SUBS
    ensures var r := AssembleRecord(subid, sesid, ii, act, res, stimInfo, images, annotations);
      var tid := TrialId(sesid, ii);
      r.Ok? <==>
        (subid, tid) in stimInfo && "nsdId" in stimInfo[(subid, tid)] &&
        stimInfo[(subid, tid)]["nsdId"].IntVal? &&
        -|images| <= stimInfo[(subid, tid)]["nsdId"].i < |images| &&
        stimInfo[(subid, tid)]["nsdId"].i in annotations &&
        Rasterize(res, act).Ok? &&
        (forall k :: k in TRIAL_FIELDS ==> k in stimInfo[(subid, tid)]) &&
        (forall k :: k in ANNOTATION_FIELDS ==> k in annotations[stimInfo[(subid, tid)]["nsdId"].i])
    ensures var r := AssembleRecord(subid, sesid, ii, act, res, stimInfo, images, annotations);
      var tid := TrialId(sesid, ii);
      r.Ok? ==>
        var info := stimInfo[(subid, tid)];
        r.value.subjectId == subid && r.value.sessionId == sesid && r.value.trialId == tid &&
        r.value.subject == SUBS[subid] &&
        r.value.nsdId == info["nsdId"].i &&
        r.value.image == images[if r.value.nsdId < 0 then r.value.nsdId + |images| else r.value.nsdId] &&
        Rasterize(res, act) == Ok(r.value.activity) &&
        (forall k :: k in r.value.trialFields <==> k in TRIAL_FIELDS) &&
        (forall k :: k in r.value.trialFields ==> r.value.trialFields[k] == info[k]) &&
        (forall k :: k in r.value.annotationFields <==> k in ANNOTATION_FIELDS) &&
        (forall k :: k in r.value.annotationFields ==> r.value.annotationFields[k] == annotations[r.value.nsdId][k]) &&
        r.value.repetitions == Repetitions(info)
    ensures (subid, TrialId(sesid, ii)) !in stimInfo ==>
      AssembleRecord(subid, sesid, ii, act, res, stimInfo, images, annotations) ==
      Err(MissingTrialInfo(subid, TrialId(sesid, ii)))
  {
  }
}
