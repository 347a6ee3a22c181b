/**
 * Technicians of the scheduling environment: skills, availability windows and
 * the builder that refuses overlapping windows.
 *
 * The builder's `BTreeSet<Availability>` is modelled as a sequence kept in
 * ascending `Compare` order without repetitions, so that "the first stored
 * window that overlaps" means the same thing as in the ordered set.
 */
module Technicians {
  import opened Results
  import opened Environment

  /** A trade skill. The derived order follows the declaration order. */
  datatype Skill = MtnMech | MtnElec

  /** Position of a skill in the derived order. */
  function SkillRank(s: Skill): nat
  {
    match s
    case MtnMech => 0
    case MtnElec => 1
  }

  /** Result of a three-way comparison (Rust's `std::cmp::Ordering`). */
  datatype Ordering = Less | Equal | Greater {
    /** Keep a decided comparison; on a tie defer to `next`. */
    function Then(next: Ordering): Ordering
    {
      if Equal? then next else this
    }
  }

  function CompareInts(a: int, b: int): (o: Ordering)
    ensures o == Less <==> a < b
    ensures o == Equal <==> a == b
  {
    if a < b then Less else if a == b then Equal else Greater
  }

  /** A window `[start, end)` during which a technician can work. */
  datatype Availability = Availability(start: Timestamp, end: Timestamp) {

    /** The calendar date the window starts on. */
    function StartDate(): (d: Date)
      ensures d * NanosPerDay <= start < d * NanosPerDay + NanosPerDay
    {
      DateOf(start)
    }

    /** The calendar date the window finishes on. */
    function FinishDate(): (d: Date)
      ensures d * NanosPerDay <= end < d * NanosPerDay + NanosPerDay
    {
      DateOf(end)
    }

    /** Whether instant `t` lies in the half-open window. */
    predicate Holds(t: Timestamp)
    {
      start <= t < end
    }

    /**
     * Two windows overlap when each starts strictly before the other ends.
     * Windows sharing an instant always overlap; for windows that start
     * before they end, overlapping is exactly sharing an instant. A window
     * whose end precedes its start holds no instant, yet the test can still
     * report an overlap for it.
     */
    predicate OverlapsWith(other: Availability)
      ensures (exists t :: Holds(t) && other.Holds(t)) ==> OverlapsWith(other)
      ensures start < end && other.start < other.end ==>
        (OverlapsWith(other) <==> exists t :: Holds(t) && other.Holds(t))
    {
      var t := if start < other.start then other.start else start;
      assert start < end && other.start < other.end && start < other.end && other.start < end ==> Holds(t) && other.Holds(t);
      start < other.end && other.start < end
    }
  }

  /** The order of availabilities: by start, then by end. */
  function Compare(a: Availability, b: Availability): (o: Ordering)
    ensures o == Equal <==> a == b
    ensures o == Less <==> a.start < b.start || (a.start == b.start && a.end < b.end)
    ensures o == Greater <==> b.start < a.start || (a.start == b.start && b.end < a.end)
  {
    CompareInts(a.start, b.start).Then(CompareInts(a.end, b.end))
  }

  /** Ascending in `Compare` order with no two equal windows: the shape of the ordered set. */
  predicate Sorted(s: seq<Availability>)
  {
    forall i, j :: 0 <= i < j < |s| ==> Compare(s[i], s[j]) == Less
  }

  /** No two distinct stored windows overlap. */
  predicate PairwiseDisjoint(s: seq<Availability>)
  {
    forall i, j :: 0 <= i < |s| && 0 <= j < |s| && s[i] != s[j] ==> !s[i].OverlapsWith(s[j])
  }

  lemma OverlapsSymmetric(a: Availability, b: Availability)
    ensures a.OverlapsWith(b) <==> b.OverlapsWith(a)
  {
  }

  lemma TouchingWindowsDoNotOverlap(a: Availability, b: Availability)
    requires a.end == b.start
    ensures !a.OverlapsWith(b) && !b.OverlapsWith(a)
  {
  }

  lemma SelfOverlap(a: Availability)
    ensures a.OverlapsWith(a) <==> a.start < a.end
  {
  }

  lemma CompareIsLexicographic(a: Availability, b: Availability)
    ensures Compare(a, b) == Less <==> Compare(b, a) == Greater
    ensures Compare(a, b) == Equal <==> a.start == b.start && a.end == b.end
  {
  }

  datatype TechnicianBuilderError =
    OverlappingAvailability(newStart: Timestamp, newEnd: Timestamp, existingStart: Timestamp, existingEnd: Timestamp)

  datatype TechnicianBuilder = TechnicianBuilder(technicianId: nat, availabilities: seq<Availability>, skills: set<Skill>)

  datatype Technician = Technician(technicianId: nat, availabilities: seq<Availability>, skills: set<Skill>)

  /** `Technician::builder`: a builder with no windows and no skills. */
  function Builder(technicianId: nat): (b: TechnicianBuilder)
    ensures b.technicianId == technicianId && b.availabilities == [] && b.skills == {}
  {
    TechnicianBuilder(technicianId, [], {})
  }

  /** The first stored window, in stored order, that overlaps `a`. */
  function FirstOverlap(s: seq<Availability>, a: Availability): (r: Option<nat>)
    ensures r.None? <==> forall i :: 0 <= i < |s| ==> !a.OverlapsWith(s[i])
    ensures r.Some? ==> r.value < |s| && a.OverlapsWith(s[r.value])
    ensures r.Some? ==> forall k :: 0 <= k < r.value ==> !a.OverlapsWith(s[k])
  {
    if s == [] then None
    else if a.OverlapsWith(s[0]) then Some(0)
    else match FirstOverlap(s[1..], a)
      case None => None
      case Some(i) => Some(i + 1)
  }

  /** Ordered-set insertion: a window already present is not stored twice. */
  function Insert(s: seq<Availability>, a: Availability): (r: seq<Availability>)
    ensures forall x :: x in r <==> x in s || x == a
    ensures Sorted(s) ==> Sorted(r)
  {
    if s == [] then [a]
    else match Compare(a, s[0])
      case Less => [a] + s
      case Equal => s
      case Greater =>
        var rest := Insert(s[1..], a);
        assert forall k :: 0 <= k < |rest| ==> rest[k] in s[1..] || rest[k] == a;
        [s[0]] + rest
  }

  /**
   * `TechnicianBuilder::add_availability`: refuses the window `[start, end)`
   * when it overlaps a stored one, reporting the first such stored window.
   */
  function AddAvailability(b: TechnicianBuilder, start: Timestamp, end: Timestamp): (r: Result<TechnicianBuilder, TechnicianBuilderError>)
    ensures r.Err? <==> exists i :: 0 <= i < |b.availabilities| && Availability(start, end).OverlapsWith(b.availabilities[i])
    ensures r.Err? ==>
      (exists i :: 0 <= i < |b.availabilities|
        && Availability(start, end).OverlapsWith(b.availabilities[i])
        && (forall k :: 0 <= k < i ==> !Availability(start, end).OverlapsWith(b.availabilities[k]))
        && r.error == OverlappingAvailability(start, end, b.availabilities[i].start, b.availabilities[i].end))
    ensures r.Ok? ==> r.value.technicianId == b.technicianId && r.value.skills == b.skills
    ensures r.Ok? ==> forall x :: x in r.value.availabilities <==> x in b.availabilities || x == Availability(start, end)
    ensures r.Ok? && Sorted(b.availabilities) ==> Sorted(r.value.availabilities)
  {
    var window := Availability(start, end);
    match FirstOverlap(b.availabilities, window)
    case Some(i) =>
      var existing := b.availabilities[i];
      Err(OverlappingAvailability(start, end, existing.start, existing.end))
    case None => Ok(b.(availabilities := Insert(b.availabilities, window)))
  }

  /** Applies `add_availability` to each window in turn, stopping at the first refusal. */
  function AddAvailabilities(b: TechnicianBuilder, windows: seq<Availability>): Result<TechnicianBuilder, TechnicianBuilderError>
    decreases |windows|
  {
    if windows == [] then Ok(b)
    else match AddAvailability(b, windows[0].start, windows[0].end)
      case Err(e) => Err(e)
      case Ok(b') => AddAvailabilities(b', windows[1..])
  }

  /** A single accepted window keeps the stored windows pairwise disjoint. */
  lemma AddAvailabilityKeepsDisjoint(b: TechnicianBuilder, start: Timestamp, end: Timestamp)
    requires PairwiseDisjoint(b.availabilities)
    requires AddAvailability(b, start, end).Ok?
    ensures PairwiseDisjoint(AddAvailability(b, start, end).value.availabilities)
  {
    var s := b.availabilities;
    var r := AddAvailability(b, start, end).value.availabilities;
    var w := Availability(start, end);
    forall i, j | 0 <= i < |r| && 0 <= j < |r| && r[i] != r[j]
      ensures !r[i].OverlapsWith(r[j])
    {
      assert r[i] in r && r[j] in r;
      if r[i] == w {
        assert r[j] in s;
      } else if r[j] == w {
        assert r[i] in s;
      } else {
        assert r[i] in s && r[j] in s;
      }
    }
  }

  /** Any chain of accepted windows, starting from disjoint ones, leaves them disjoint and ordered. */
  lemma {:induction false} AddAvailabilitiesKeepsDisjoint(b: TechnicianBuilder, windows: seq<Availability>)
    requires PairwiseDisjoint(b.availabilities) && Sorted(b.availabilities)
    requires AddAvailabilities(b, windows).Ok?
    ensures PairwiseDisjoint(AddAvailabilities(b, windows).value.availabilities)
    ensures Sorted(AddAvailabilities(b, windows).value.availabilities)
    ensures AddAvailabilities(b, windows).value.technicianId == b.technicianId
    decreases |windows|
  {
    if windows != [] {
      var b' := AddAvailability(b, windows[0].start, windows[0].end).value;
      AddAvailabilityKeepsDisjoint(b, windows[0].start, windows[0].end);
      AddAvailabilitiesKeepsDisjoint(b', windows[1..]);
    }
  }

  /** `TechnicianBuilder::add_skill`: set insertion. */
  function AddSkill(b: TechnicianBuilder, s: Skill): (r: TechnicianBuilder)
    ensures s in r.skills && forall t :: t in r.skills <==> t in b.skills || t == s
    ensures r.technicianId == b.technicianId && r.availabilities == b.availabilities
  {
    b.(skills := b.skills + {s})
  }

  lemma AddSkillIdempotent(b: TechnicianBuilder, s: Skill)
    ensures AddSkill(AddSkill(b, s), s) == AddSkill(b, s)
  {
  }

  /** `TechnicianBuilder::build`. */
  function Build(b: TechnicianBuilder): (t: Technician)
    ensures t.technicianId == b.technicianId && t.availabilities == b.availabilities && t.skills == b.skills
  {
    Technician(b.technicianId, b.availabilities, b.skills)
  }

  /** `Technician::skills`: the skills in ascending order, each once. */
  function Skills(t: Technician): (r: seq<Skill>)
    ensures forall s :: s in r <==> s in t.skills
    ensures forall i, j :: 0 <= i < j < |r| ==> SkillRank(r[i]) < SkillRank(r[j])
  {
    assert forall s :: s in t.skills ==> s == MtnMech || s == MtnElec;
    (if MtnMech in t.skills then [MtnMech] else []) + (if MtnElec in t.skills then [MtnElec] else [])
  }
}
