/**
  * Teams: forming teams from the shuffled participant list (round robin,
  * with optional activity assignment), the score and activity handlers,
  * the activity registry, the ranking comparator and the leader rule.
  *
  * Team and activity ids come from `createId`, which reads the clock and
  * `Math.random()`; here they are opaque natural numbers supplied by the
  * caller.
  */
module Teams {
  import opened Text
  import opened NameUtils

  type Id = nat

  /** An activity of the registry; `text` is the source's `label` field (`label` is a Dafny keyword). */
  datatype Activity = Activity(id: Id, text: string)

  /** A team record; the display colour is presentation and not kept. */
  datatype Team = Team(
    id: Id,
    name: string,
    members: seq<string>,
    score: int,
    activityId: Option<Id>,
    activityLabel: Option<string>,
    createdOrder: nat)

  // ---------------------------------------------------------------------------
  // Arithmetic of the round robin
  // ---------------------------------------------------------------------------

  lemma MulBound(k: int, d: int)
    requires k >= 0
    ensures d >= 1 ==> k * d >= k
    ensures d <= -1 ==> k * d <= -k
  {
    if d >= 1 {
      assert k * d == k + k * (d - 1);
    } else if d <= -1 {
      assert k * d == -k - k * (-d - 1);
    }
  }

  /** Quotient and remainder are determined by `m == k * q + r` with `r < k`. */
  lemma DivModUnique(m: nat, k: nat, q: nat, r: nat)
    requires k >= 1 && r < k && m == k * q + r
    ensures m / k == q && m % k == r
  {
    var q', r' := m / k, m % k;
    assert k * (q' - q) == r - r';
    MulBound(k, q' - q);
  }

  /** How quotient and remainder move when the dividend grows by one. */
  lemma DivModNext(n: nat, k: nat)
    requires k >= 1
    ensures n % k == k - 1 ==> (n + 1) / k == n / k + 1 && (n + 1) % k == 0
    ensures n % k < k - 1 ==> (n + 1) / k == n / k && (n + 1) % k == n % k + 1
  {
    var q, r := n / k, n % k;
    assert n == k * q + r;
    if r == k - 1 {
      assert k * (q + 1) == k * q + k;
      DivModUnique(n + 1, k, q + 1, 0);
    } else {
      DivModUnique(n + 1, k, q, r + 1);
    }
  }

  // ---------------------------------------------------------------------------
  // Round robin: participant i joins team i mod k
  // ---------------------------------------------------------------------------

  /** The member lists after pushing every participant onto team `index % k`, in order. */
  function RoundRobin(ps: seq<string>, k: nat): (r: seq<seq<string>>)
    requires k >= 1
    ensures |r| == k
    decreases |ps|
  {
    if ps == [] then seq(k, _ => [])
    else
      var prev := RoundRobin(ps[..|ps| - 1], k);
      var t := (|ps| - 1) % k;
      prev[t := prev[t] + [ps[|ps| - 1]]]
  }

  /** Team `t` receives `n / k` participants, plus one when `t < n % k`. */
  function TeamSize(n: nat, k: nat, t: nat): nat
    requires k >= 1
  {
    n / k + (if t < n % k then 1 else 0)
  }

  lemma {:induction false} RoundRobinSizes(ps: seq<string>, k: nat)
    requires k >= 1
    ensures forall t | 0 <= t < k :: |RoundRobin(ps, k)[t]| == TeamSize(|ps|, k, t)
    decreases |ps|
  {
    if ps != [] {
      var n := |ps| - 1;
      RoundRobinSizes(ps[..n], k);
      DivModNext(n, k);
    }
  }

  /** No two teams differ in size by more than one. */
  lemma RoundRobinBalanced(ps: seq<string>, k: nat)
    requires k >= 1
    ensures forall t, u | 0 <= t < k && 0 <= u < k ::
      |RoundRobin(ps, k)[t]| <= |RoundRobin(ps, k)[u]| + 1
  {
    RoundRobinSizes(ps, k);
  }

  /** Participant `i` sits on team `i % k`, at position `i / k`. */
  lemma {:induction false} RoundRobinPlacement(ps: seq<string>, k: nat, i: nat)
    requires k >= 1 && i < |ps|
    ensures i / k < |RoundRobin(ps, k)[i % k]|
    ensures RoundRobin(ps, k)[i % k][i / k] == ps[i]
    decreases |ps|
  {
    var n := |ps| - 1;
    var prev := RoundRobin(ps[..n], k);
    RoundRobinSizes(ps[..n], k);
    if i < n {
      RoundRobinPlacement(ps[..n], k, i);
    } else {
      assert |prev[n % k]| == n / k;
    }
  }

  /** All member lists, concatenated in team order. */
  function Flatten(buckets: seq<seq<string>>): seq<string>
  {
    if buckets == [] then [] else buckets[0] + Flatten(buckets[1..])
  }

  lemma {:induction false} FlattenPush(buckets: seq<seq<string>>, t: nat, x: string)
    requires t < |buckets|
    ensures multiset(Flatten(buckets[t := buckets[t] + [x]]))
         == multiset(Flatten(buckets)) + multiset{x}
  {
    var updated := buckets[t := buckets[t] + [x]];
    if t == 0 {
      assert updated[1..] == buckets[1..];
    } else {
      assert updated[1..] == buckets[1..][t - 1 := buckets[t] + [x]];
      FlattenPush(buckets[1..], t - 1, x);
    }
  }

  lemma {:induction false} FlattenEmpty(k: nat)
    ensures Flatten(seq(k, _ => [])) == []
  {
    if k > 0 {
      var e: seq<seq<string>> := seq(k, _ => []);
      assert e[1..] == seq(k - 1, _ => []);
      FlattenEmpty(k - 1);
    }
  }

  /** Every participant lands on exactly one team: the teams' members are a permutation of the participants. */
  lemma {:induction false} RoundRobinPartition(ps: seq<string>, k: nat)
    requires k >= 1
    ensures multiset(Flatten(RoundRobin(ps, k))) == multiset(ps)
    ensures |Flatten(RoundRobin(ps, k))| == |ps|
    decreases |ps|
  {
    if ps == [] {
      FlattenEmpty(k);
    } else {
      var n := |ps| - 1;
      RoundRobinPartition(ps[..n], k);
      FlattenPush(RoundRobin(ps[..n], k), n % k, ps[n]);
      assert ps == ps[..n] + [ps[n]];
    }
    assert |multiset(Flatten(RoundRobin(ps, k)))| == |Flatten(RoundRobin(ps, k))|;
  }

  // ---------------------------------------------------------------------------
  // handleGenerateTeams: the created teams
  // ---------------------------------------------------------------------------

  /**
    * The label of the team at `index`: "Equipe 1", "Equipe 2", ...; the
    * number after "Equipe " reads back as `index + 1`.
    */
  function TeamName(index: nat): (r: string)
    ensures |r| > 7 && r[..7] == "Equipe "
    ensures ParseNat(r[7..]) == index + 1
  {
    var r := "Equipe " + NatToString(index + 1);
    assert r[7..] == NatToString(index + 1);
    ParseNatToString(index + 1);
    r
  }

  /** Team labels are pairwise distinct. */
  lemma TeamNamesDistinct(i: nat, j: nat)
    requires i != j
    ensures TeamName(i) != TeamName(j)
  {
  }

  /** A freshly created team: no members, score 0, no activity, `createdOrder` its index. */
  function NewTeam(id: Id, index: nat): Team
  {
    Team(id, TeamName(index), [], 0, None, None, index)
  }

  /**
    * The activity team `t` of `k` receives from the shuffled activities: the
    * `t`-th when there are at least `k` activities, otherwise the
    * `(t % |acts|)`-th; none when the list is empty (assignment off).
    */
  function AssignedActivity(acts: seq<Activity>, k: nat, t: nat): (r: Option<Activity>)
    ensures r.Some? ==> r.value in acts
  {
    if |acts| == 0 then None
    else if |acts| >= k then (if t < |acts| then Some(acts[t]) else None)
    else Some(acts[t % |acts|])
  }

  function WithActivity(team: Team, a: Option<Activity>): Team
  {
    match a
    case None => team
    case Some(act) => team.(activityId := Some(act.id), activityLabel := Some(act.text))
  }

  /**
    * The teams `handleGenerateTeams` creates from the shuffled participants
    * `ps`, the fresh ids `ids` and the shuffled activities `acts` (empty
    * when activities are not assigned).
    */
  function FormedTeams(ids: seq<Id>, ps: seq<string>, k: nat, acts: seq<Activity>): (r: seq<Team>)
    requires k >= 1 && |ids| == k
    ensures |r| == k
  {
    var buckets := RoundRobin(ps, k);
    seq(k, t requires 0 <= t < k =>
      WithActivity(NewTeam(ids[t], t).(members := buckets[t]), AssignedActivity(acts, k, t)))
  }

  /** Exactly `k` teams, in creation order, each with its fresh id and label, score 0. */
  lemma FormedTeamsFresh(ids: seq<Id>, ps: seq<string>, k: nat, acts: seq<Activity>)
    requires k >= 1 && |ids| == k
    ensures forall t | 0 <= t < k ::
      var team := FormedTeams(ids, ps, k, acts)[t];
      team.id == ids[t] && team.name == TeamName(t) && team.score == 0 && team.createdOrder == t
    ensures acts == [] ==> forall t | 0 <= t < k ::
      FormedTeams(ids, ps, k, acts)[t].activityId == None && FormedTeams(ids, ps, k, acts)[t].activityLabel == None
  {
  }

  /** The team sizes differ by at most one, sum to the number of participants, and the members are a permutation of them. */
  lemma FormedTeamsMembers(ids: seq<Id>, ps: seq<string>, k: nat, acts: seq<Activity>)
    requires k >= 1 && |ids| == k
    ensures forall t | 0 <= t < k :: |FormedTeams(ids, ps, k, acts)[t].members| == TeamSize(|ps|, k, t)
    ensures forall t, u | 0 <= t < k && 0 <= u < k ::
      |FormedTeams(ids, ps, k, acts)[t].members| <= |FormedTeams(ids, ps, k, acts)[u].members| + 1
    ensures multiset(Flatten(Members(FormedTeams(ids, ps, k, acts)))) == multiset(ps)
    ensures |Flatten(Members(FormedTeams(ids, ps, k, acts)))| == |ps|
  {
    var r := FormedTeams(ids, ps, k, acts);
    assert Members(r) == RoundRobin(ps, k);
    RoundRobinSizes(ps, k);
    RoundRobinPartition(ps, k);
  }

  /** Participant `i` of the shuffled list is a member of team `i % k`. */
  lemma {:induction false} FormedTeamsPlacement(ids: seq<Id>, ps: seq<string>, k: nat, acts: seq<Activity>, i: nat)
    requires k >= 1 && |ids| == k && i < |ps|
    ensures ps[i] in FormedTeams(ids, ps, k, acts)[i % k].members
  {
    RoundRobinPlacement(ps, k, i);
    var t, q := i % k, i / k;
    var bucket := RoundRobin(ps, k)[t];
    assert q < |bucket| && bucket[q] == ps[i];
    FormedTeamsBucket(ids, ps, k, acts, t);
  }

  lemma FormedTeamsBucket(ids: seq<Id>, ps: seq<string>, k: nat, acts: seq<Activity>, t: nat)
    requires k >= 1 && |ids| == k && t < k
    ensures FormedTeams(ids, ps, k, acts)[t].members == RoundRobin(ps, k)[t]
  {
  }

  function Members(teams: seq<Team>): (r: seq<seq<string>>)
    ensures |r| == |teams|
    ensures forall t | 0 <= t < |teams| :: r[t] == teams[t].members
  {
    seq(|teams|, t requires 0 <= t < |teams| => teams[t].members)
  }

  /** The team carries the id and the label of some activity of `acts`. */
  predicate HasActivityFrom(team: Team, acts: seq<Activity>) {
    exists a | a in acts :: team.activityId == Some(a.id) && team.activityLabel == Some(a.text)
  }

  /** With at least one activity, every team is given one of them. */
  lemma {:induction false} FormedTeamsAllAssigned(ids: seq<Id>, ps: seq<string>, k: nat, acts: seq<Activity>)
    requires k >= 1 && |ids| == k && |acts| >= 1
    ensures forall t | 0 <= t < k :: HasActivityFrom(FormedTeams(ids, ps, k, acts)[t], acts)
  {
    forall t | 0 <= t < k
      ensures HasActivityFrom(FormedTeams(ids, ps, k, acts)[t], acts)
    {
      var team := FormedTeams(ids, ps, k, acts)[t];
      var a := AssignedActivity(acts, k, t).value;
      assert a in acts && team.activityId == Some(a.id) && team.activityLabel == Some(a.text);
    }
  }

  /**
    * When there are at least as many activities as teams, team `t` gets
    * activity `t`, so distinct teams get distinct activities.
    */
  lemma FormedTeamsOneToOne(ids: seq<Id>, ps: seq<string>, k: nat, acts: seq<Activity>)
    requires k >= 1 && |ids| == k && |acts| >= k
    requires forall x, y | 0 <= x < y < |acts| :: acts[x].id != acts[y].id
    ensures forall t | 0 <= t < k ::
      FormedTeams(ids, ps, k, acts)[t].activityId == Some(acts[t].id)
      && FormedTeams(ids, ps, k, acts)[t].activityLabel == Some(acts[t].text)
    ensures forall t, u | 0 <= t < u < k ::
      FormedTeams(ids, ps, k, acts)[t].activityId != FormedTeams(ids, ps, k, acts)[u].activityId
  {
  }

  /** With fewer activities than teams, they are dealt out in turn and every activity is used. */
  lemma FormedTeamsWrapAround(ids: seq<Id>, ps: seq<string>, k: nat, acts: seq<Activity>)
    requires k >= 1 && |ids| == k && 1 <= |acts| < k
    ensures forall t | 0 <= t < k ::
      FormedTeams(ids, ps, k, acts)[t].activityId == Some(acts[t % |acts|].id)
    ensures forall x | 0 <= x < |acts| ::
      FormedTeams(ids, ps, k, acts)[x].activityId == Some(acts[x].id)
  {
    forall x | 0 <= x < |acts|
      ensures x % |acts| == x
    {
      DivModUnique(x, |acts|, 0, x);
    }
  }

  /** `handleGenerateTeams` building `created`: push each participant onto its team, then assign activities in place. */
  method BuildTeams(ids: seq<Id>, participants: seq<string>, teamCount: nat, acts: seq<Activity>)
    returns (created: seq<Team>)
    requires teamCount >= 1 && |ids| == teamCount
    ensures created == FormedTeams(ids, participants, teamCount, acts)
  {
    var teams := new Team[teamCount](t requires 0 <= t < teamCount => NewTeam(ids[t], t));
    DealMembers(teams, ids, participants);
    if |acts| > 0 {
      AssignInPlace(teams, acts);
    }
    created := teams[..];
  }

  /** The round-robin loop: participant `i` is pushed onto team `i % teamCount`. */
  method DealMembers(teams: array<Team>, ids: seq<Id>, participants: seq<string>)
    requires teams.Length >= 1 && |ids| == teams.Length
    requires forall t | 0 <= t < teams.Length :: teams[t] == NewTeam(ids[t], t)
    modifies teams
    ensures forall t | 0 <= t < teams.Length ::
      teams[t] == NewTeam(ids[t], t).(members := RoundRobin(participants, teams.Length)[t])
  {
    var teamCount := teams.Length;
    var i := 0;
    while i < |participants|
      invariant 0 <= i <= |participants|
      invariant forall t | 0 <= t < teamCount ::
        teams[t] == NewTeam(ids[t], t).(members := RoundRobin(participants[..i], teamCount)[t])
    {
      var t := i % teamCount;
      teams[t] := teams[t].(members := teams[t].members + [participants[i]]);
      assert participants[..i + 1][..i] == participants[..i];
      i := i + 1;
    }
    assert participants[..i] == participants;
  }

  /** The assignment loop: team `t` receives its activity, when it has one. */
  method AssignInPlace(teams: array<Team>, acts: seq<Activity>)
    requires |acts| > 0
    modifies teams
    ensures forall u | 0 <= u < teams.Length ::
      teams[u] == WithActivity(old(teams[u]), AssignedActivity(acts, teams.Length, u))
  {
    var teamCount := teams.Length;
    var t := 0;
    while t < teamCount
      invariant 0 <= t <= teamCount
      invariant forall u | 0 <= u < teamCount ::
        teams[u] == WithActivity(old(teams[u]), if u < t then AssignedActivity(acts, teamCount, u) else None)
    {
      var activity: Option<Activity>;
      if |acts| >= teamCount {
        activity := if t < |acts| then Some(acts[t]) else None;
      } else {
        activity := Some(acts[t % |acts|]);
      }
      if activity.Some? {
        teams[t] := teams[t].(activityId := Some(activity.value.id), activityLabel := Some(activity.value.text));
      }
      t := t + 1;
    }
  }

  // ---------------------------------------------------------------------------
  // handleScoreDelta, handleScoreSet
  // ---------------------------------------------------------------------------

  /** The score typed into a team card: a number, or `NaN`. */
  datatype ScoreInput = Score(value: int) | NotANumber

  /** `handleScoreDelta`: the teams whose id matches gain `delta` points. */
  function ScoreDelta(teams: seq<Team>, teamId: Id, delta: int): (r: seq<Team>)
    ensures |r| == |teams|
  {
    seq(|teams|, i requires 0 <= i < |teams| =>
      if teams[i].id == teamId then teams[i].(score := teams[i].score + delta) else teams[i])
  }

  /** The score `handleScoreSet` stores: `NaN` becomes 0. */
  function ScoreValue(input: ScoreInput): int
  {
    match input
    case Score(v) => v
    case NotANumber => 0
  }

  /** `handleScoreSet`: the teams whose id matches get the typed score. */
  function ScoreSet(teams: seq<Team>, teamId: Id, input: ScoreInput): (r: seq<Team>)
    ensures |r| == |teams|
  {
    seq(|teams|, i requires 0 <= i < |teams| =>
      if teams[i].id == teamId then teams[i].(score := ScoreValue(input)) else teams[i])
  }

  /** Only the score of the target team changes; every other team and every other field stays as it was. */
  lemma ScoreDeltaOnlyTarget(teams: seq<Team>, teamId: Id, delta: int)
    ensures forall i | 0 <= i < |teams| ::
      ScoreDelta(teams, teamId, delta)[i] == teams[i].(score := ScoreDelta(teams, teamId, delta)[i].score)
    ensures forall i | 0 <= i < |teams| && teams[i].id != teamId :: ScoreDelta(teams, teamId, delta)[i] == teams[i]
    ensures forall i | 0 <= i < |teams| && teams[i].id == teamId ::
      ScoreDelta(teams, teamId, delta)[i].score - teams[i].score == delta
  {
  }

  /** A point added and taken away again leaves the teams as they were. */
  lemma ScoreDeltaInverse(teams: seq<Team>, teamId: Id, delta: int)
    ensures ScoreDelta(ScoreDelta(teams, teamId, delta), teamId, -delta) == teams
  {
  }

  /** Two deltas on the same team add up. */
  lemma ScoreDeltaCompose(teams: seq<Team>, teamId: Id, a: int, b: int)
    ensures ScoreDelta(ScoreDelta(teams, teamId, a), teamId, b) == ScoreDelta(teams, teamId, a + b)
  {
  }

  /** Setting a score overrides any earlier delta; reading the target back gives the set value. */
  lemma ScoreSetOverrides(teams: seq<Team>, teamId: Id, delta: int, input: ScoreInput)
    ensures ScoreSet(ScoreDelta(teams, teamId, delta), teamId, input) == ScoreSet(teams, teamId, input)
    ensures forall i | 0 <= i < |teams| && teams[i].id == teamId :: ScoreSet(teams, teamId, input)[i].score == ScoreValue(input)
    ensures forall i | 0 <= i < |teams| && teams[i].id != teamId :: ScoreSet(teams, teamId, input)[i] == teams[i]
    ensures ScoreSet(teams, teamId, NotANumber) == ScoreSet(teams, teamId, Score(0))
    ensures ScoreSet(ScoreSet(teams, teamId, input), teamId, input) == ScoreSet(teams, teamId, input)
  {
  }

  // ---------------------------------------------------------------------------
  // The activity registry: handleAddActivity, handleRemoveActivity
  // ---------------------------------------------------------------------------

  function Ids(registry: seq<Activity>): (r: seq<Id>)
    ensures |r| == |registry|
    ensures forall i | 0 <= i < |registry| :: r[i] == registry[i].id
  {
    seq(|registry|, i requires 0 <= i < |registry| => registry[i].id)
  }

  /** Some activity of the registry has this label, ignoring case. */
  predicate LabelTaken(registry: seq<Activity>, text: string) {
    exists a | a in registry :: LowerStr(a.text) == LowerStr(text)
  }

  /** Non-empty, with no whitespace at either end: what `trim` leaves of a non-blank label. */
  predicate Trimmed(s: string) {
    s != [] && !IsSpace(s[0]) && !IsSpace(s[|s| - 1])
  }

  /**
    * What the registry maintains: distinct ids, labels that are trimmed and
    * non-empty, and no two labels equal ignoring case.
    */
  predicate RegistryValid(registry: seq<Activity>) {
    && Distinct(Ids(registry))
    && (forall a | a in registry :: Trimmed(a.text))
    && (forall i, j | 0 <= i < j < |registry| :: LowerStr(registry[i].text) != LowerStr(registry[j].text))
  }

  /**
    * `handleAddActivity(input)` with the fresh id `newId`: the registry is
    * kept or grows by the trimmed label, and afterwards a non-blank label is
    * always taken.
    */
  function AddActivity(registry: seq<Activity>, input: string, newId: Id): (r: seq<Activity>)
    ensures r == registry || r == registry + [Activity(newId, Trim(input))]
    ensures Trim(input) != [] ==> LabelTaken(r, Trim(input))
  {
    var trimmed := Trim(input);
    if trimmed == [] then registry
    else if LabelTaken(registry, trimmed) then registry
    else registry + [Activity(newId, trimmed)]
  }

  /**
    * Adding grows the registry exactly when the trimmed label is not blank
    * and not already taken ignoring case.
    */
  lemma AddActivityOutcome(registry: seq<Activity>, input: string, newId: Id)
    ensures AddActivity(registry, input, newId) != registry
        <==> Trim(input) != [] && !LabelTaken(registry, Trim(input))
  {
    var r := AddActivity(registry, input, newId);
    if Trim(input) != [] && !LabelTaken(registry, Trim(input)) {
      assert r[|registry|] == Activity(newId, Trim(input));
      assert |r| != |registry|;
    }
  }

  /** Adding an activity with a fresh id keeps the registry valid. */
  lemma AddActivityValid(registry: seq<Activity>, input: string, newId: Id)
    requires RegistryValid(registry) && newId !in Ids(registry)
    ensures RegistryValid(AddActivity(registry, input, newId))
  {
    var trimmed := Trim(input);
    if trimmed != [] && !LabelTaken(registry, trimmed) {
      var x := Activity(newId, trimmed);
      assert AddActivity(registry, input, newId) == registry + [x];
      forall a | a in registry ensures a.id != x.id && LowerStr(a.text) != LowerStr(x.text) {
        var k :| 0 <= k < |registry| && registry[k] == a;
        assert Ids(registry)[k] == a.id;
      }
      ValidSnoc(registry, x);
    }
  }

  /** A valid registry with a new, distinct, clean entry at the end is valid. */
  lemma ValidSnoc(rest: seq<Activity>, x: Activity)
    requires RegistryValid(rest)
    requires Trimmed(x.text)
    requires forall a | a in rest :: a.id != x.id && LowerStr(a.text) != LowerStr(x.text)
    ensures RegistryValid(rest + [x])
  {
    var r := rest + [x];
    assert Distinct(Ids(r)) by {
      assert Ids(r) == Ids(rest) + [x.id];
      forall i | 0 <= i < |rest|
        ensures Ids(r)[i] != x.id
      {
        assert r[i] == rest[i] && rest[i] in rest;
      }
    }
    forall i, j | 0 <= i < j < |r|
      ensures LowerStr(r[i].text) != LowerStr(r[j].text)
    {
      assert r[i] == rest[i] && rest[i] in rest;
      if j < |rest| {
        assert r[j] == rest[j];
      }
    }
  }

  /** `prev.filter((item) => item.id !== id)`. */
  function RemoveById(registry: seq<Activity>, id: Id): (r: seq<Activity>)
    ensures forall a :: a in r <==> a in registry && a.id != id
    ensures |r| <= |registry|
  {
    if registry == [] then []
    else (if registry[0].id == id then [] else [registry[0]]) + RemoveById(registry[1..], id)
  }

  lemma {:induction false} RemoveByIdKeepsOrder(registry: seq<Activity>, id: Id)
    ensures IsSubsequence(RemoveById(registry, id), registry)
  {
    if registry != [] {
      var tail := registry[1..];
      var rest := RemoveById(tail, id);
      RemoveByIdKeepsOrder(tail, id);
      var r := RemoveById(registry, id);
      if registry[0].id != id {
        assert r[0] == registry[0] && r[1..] == rest;
      } else {
        assert r == rest && registry[1..] == tail;
      }
    }
  }

  /** The teams' side of `handleRemoveActivity`: clear the activity wherever it is assigned. */
  function ClearActivity(teams: seq<Team>, id: Id): (r: seq<Team>)
    ensures |r| == |teams|
  {
    seq(|teams|, i requires 0 <= i < |teams| =>
      if teams[i].activityId == Some(id) then teams[i].(activityId := None, activityLabel := None) else teams[i])
  }

  /** Every team's activity, when it has one, is in the registry, with that activity's label. */
  predicate TeamsConsistent(teams: seq<Team>, registry: seq<Activity>) {
    forall team | team in teams && team.activityId.Some? ::
      exists a | a in registry :: team.activityId == Some(a.id) && team.activityLabel == Some(a.text)
  }

  /** After removal no team refers to the activity, every other team is untouched, and consistency is kept. */
  lemma RemoveActivityCascades(teams: seq<Team>, registry: seq<Activity>, id: Id)
    ensures forall i | 0 <= i < |teams| :: ClearActivity(teams, id)[i].activityId != Some(id)
    ensures forall i | 0 <= i < |teams| && teams[i].activityId != Some(id) :: ClearActivity(teams, id)[i] == teams[i]
    ensures forall i | 0 <= i < |teams| ::
      ClearActivity(teams, id)[i] == teams[i].(activityId := ClearActivity(teams, id)[i].activityId,
                                               activityLabel := ClearActivity(teams, id)[i].activityLabel)
    ensures TeamsConsistent(teams, registry) ==> TeamsConsistent(ClearActivity(teams, id), RemoveById(registry, id))
  {
    var r := ClearActivity(teams, id);
    var reg := RemoveById(registry, id);
    if TeamsConsistent(teams, registry) {
      forall team | team in r && team.activityId.Some?
        ensures exists a | a in reg :: team.activityId == Some(a.id) && team.activityLabel == Some(a.text)
      {
        var i :| 0 <= i < |r| && r[i] == team;
        assert team == teams[i];
        var a :| a in registry && team.activityId == Some(a.id) && team.activityLabel == Some(a.text);
        assert a in reg;
      }
    }
  }

  /** The tail of a valid registry is valid, and its head differs from every later entry. */
  lemma ValidTail(registry: seq<Activity>)
    requires RegistryValid(registry) && registry != []
    ensures RegistryValid(registry[1..])
    ensures forall a | a in registry[1..] ::
      a.id != registry[0].id && LowerStr(a.text) != LowerStr(registry[0].text)
  {
    var tail := registry[1..];
    assert Ids(tail) == Ids(registry)[1..];
    forall a | a in tail
      ensures a.id != registry[0].id && LowerStr(a.text) != LowerStr(registry[0].text)
    {
      var j :| 0 <= j < |tail| && tail[j] == a;
      assert registry[j + 1] == a;
      assert Ids(registry)[j + 1] == a.id;
    }
  }

  /** A valid registry with a new, distinct, clean entry in front is valid. */
  lemma ValidCons(x: Activity, rest: seq<Activity>)
    requires RegistryValid(rest)
    requires Trimmed(x.text)
    requires forall a | a in rest :: a.id != x.id && LowerStr(a.text) != LowerStr(x.text)
    ensures RegistryValid([x] + rest)
  {
    var r := [x] + rest;
    forall i, j | 0 <= i < j < |r|
      ensures r[i].id != r[j].id && LowerStr(r[i].text) != LowerStr(r[j].text)
    {
      assert r[j] == rest[j - 1] && rest[j - 1] in rest;
      if i > 0 {
        assert r[i] == rest[i - 1];
        assert Ids(rest)[i - 1] == r[i].id && Ids(rest)[j - 1] == r[j].id;
      }
    }
    assert Distinct(Ids(r));
  }

  /** Removing an activity keeps the registry valid. */
  lemma {:induction false} RemoveActivityValid(registry: seq<Activity>, id: Id)
    requires RegistryValid(registry)
    ensures RegistryValid(RemoveById(registry, id))
  {
    if registry != [] {
      var tail := registry[1..];
      ValidTail(registry);
      RemoveActivityValid(tail, id);
      if registry[0].id != id {
        ValidCons(registry[0], RemoveById(tail, id));
      }
    }
  }

  // ---------------------------------------------------------------------------
  // handleAssignActivity
  // ---------------------------------------------------------------------------

  /** `activities.find((item) => item.id === activityId)`: the first activity with that id. */
  function FindActivity(registry: seq<Activity>, id: Id): (r: Option<Activity>)
    ensures r.Some? ==> r.value in registry && r.value.id == id
    ensures r.None? ==> forall a | a in registry :: a.id != id
  {
    if registry == [] then None
    else if registry[0].id == id then Some(registry[0])
    else FindActivity(registry[1..], id)
  }

  /**
    * `handleAssignActivity`: on the target team, no id (an empty choice)
    * clears the activity; an id is stored with the label of the matching
    * activity, or no label when none matches.
    */
  function AssignActivity(teams: seq<Team>, registry: seq<Activity>, teamId: Id, activityId: Option<Id>): (r: seq<Team>)
    ensures |r| == |teams|
    ensures forall i | 0 <= i < |teams| && teams[i].id != teamId :: r[i] == teams[i]
    ensures forall i | 0 <= i < |teams| && teams[i].id == teamId ::
      && r[i].activityId == activityId
      && r[i].(activityId := teams[i].activityId, activityLabel := teams[i].activityLabel) == teams[i]
      && (r[i].activityLabel.Some? ==>
            exists a | a in registry :: activityId == Some(a.id) && r[i].activityLabel == Some(a.text))
  {
    seq(|teams|, i requires 0 <= i < |teams| =>
      if teams[i].id != teamId then teams[i]
      else match activityId
        case None => teams[i].(activityId := None, activityLabel := None)
        case Some(a) =>
          teams[i].(activityId := Some(a),
                    activityLabel := match FindActivity(registry, a)
                                     case Some(act) => Some(act.text)
                                     case None => None))
  }

  /** With distinct ids, the target team gets exactly that activity's label; the others are untouched. */
  lemma AssignActivityLabel(teams: seq<Team>, registry: seq<Activity>, teamId: Id, act: Activity)
    requires Distinct(Ids(registry)) && act in registry
    ensures forall i | 0 <= i < |teams| && teams[i].id == teamId ::
      AssignActivity(teams, registry, teamId, Some(act.id))[i]
        == teams[i].(activityId := Some(act.id), activityLabel := Some(act.text))
    ensures forall i | 0 <= i < |teams| && teams[i].id != teamId ::
      AssignActivity(teams, registry, teamId, Some(act.id))[i] == teams[i]
  {
    var found := FindActivity(registry, act.id);
    var i :| 0 <= i < |registry| && registry[i] == act;
    var j :| 0 <= j < |registry| && registry[j] == found.value;
    assert Ids(registry)[i] == Ids(registry)[j];
  }

  /** An empty choice clears both the id and the label of the target team; the others are untouched. */
  lemma AssignActivityClears(teams: seq<Team>, registry: seq<Activity>, teamId: Id)
    ensures forall i | 0 <= i < |teams| ::
      AssignActivity(teams, registry, teamId, None)[i]
        == if teams[i].id == teamId then teams[i].(activityId := None, activityLabel := None) else teams[i]
  {
  }

  /**
    * An id no registered activity has is still stored on the target team, with
    * no label; the others are untouched.
    */
  lemma AssignActivityUnknown(teams: seq<Team>, registry: seq<Activity>, teamId: Id, id: Id)
    requires id !in Ids(registry)
    ensures forall i | 0 <= i < |teams| ::
      AssignActivity(teams, registry, teamId, Some(id))[i]
        == if teams[i].id == teamId then teams[i].(activityId := Some(id), activityLabel := None) else teams[i]
  {
  }

  /** Assigning a registered activity, or clearing, keeps the teams consistent with the registry. */
  lemma AssignActivityConsistent(teams: seq<Team>, registry: seq<Activity>, teamId: Id, activityId: Option<Id>)
    requires TeamsConsistent(teams, registry)
    requires activityId.Some? ==> activityId.value in Ids(registry)
    ensures TeamsConsistent(AssignActivity(teams, registry, teamId, activityId), registry)
  {
    var r := AssignActivity(teams, registry, teamId, activityId);
    forall team | team in r && team.activityId.Some?
      ensures exists a | a in registry :: team.activityId == Some(a.id) && team.activityLabel == Some(a.text)
    {
      var i :| 0 <= i < |r| && r[i] == team;
      if teams[i].id != teamId {
        assert teams[i] in teams;
      } else {
        var k :| 0 <= k < |registry| && Ids(registry)[k] == activityId.value;
        var found := FindActivity(registry, activityId.value);
        assert found.Some? by {
          assert registry[k] in registry;
        }
      }
    }
  }

  // ---------------------------------------------------------------------------
  // rankedTeams
  // ---------------------------------------------------------------------------

  /** The comparator says `a` comes strictly before `b`: higher score, or equal score and created earlier. */
  predicate Precedes(a: Team, b: Team) {
    a.score > b.score || (a.score == b.score && a.createdOrder < b.createdOrder)
  }

  /** No later team comes strictly before an earlier one. */
  predicate RankSorted(s: seq<Team>) {
    forall i, j | 0 <= i < j < |s| :: !Precedes(s[j], s[i])
  }

  /** Place `x` after every team it does not strictly precede, so that ties keep their order. */
  function Insert(sorted: seq<Team>, x: Team): (r: seq<Team>)
    ensures |r| == |sorted| + 1
    ensures multiset(r) == multiset(sorted) + multiset{x}
  {
    if sorted == [] then [x]
    else if Precedes(x, sorted[0]) then [x] + sorted
    else
      assert sorted == [sorted[0]] + sorted[1..];
      [sorted[0]] + Insert(sorted[1..], x)
  }

  /**
    * `[...teams].sort(comparator)`: a stable sort, written as insertion of
    * each team in turn into the already-ranked prefix.
    */
  function Ranked(teams: seq<Team>): (r: seq<Team>)
    ensures |r| == |teams|
    ensures multiset(r) == multiset(teams)
  {
    if teams == [] then []
    else
      assert teams == teams[..|teams| - 1] + [teams[|teams| - 1]];
      Insert(Ranked(teams[..|teams| - 1]), teams[|teams| - 1])
  }

  lemma {:induction false} InsertSorted(sorted: seq<Team>, x: Team)
    requires RankSorted(sorted)
    ensures RankSorted(Insert(sorted, x))
  {
    if sorted != [] && !Precedes(x, sorted[0]) {
      var tail := Insert(sorted[1..], x);
      InsertSorted(sorted[1..], x);
      var r := [sorted[0]] + tail;
      forall j | 0 < j < |r|
        ensures !Precedes(r[j], r[0])
      {
        assert r[j] in multiset(tail);
        assert r[j] == x || r[j] in sorted[1..];
      }
    }
  }

  /** The ranking is sorted by score descending, then by creation order ascending. */
  lemma {:induction false} RankedSorted(teams: seq<Team>)
    ensures RankSorted(Ranked(teams))
  {
    if teams != [] {
      RankedSorted(teams[..|teams| - 1]);
      InsertSorted(Ranked(teams[..|teams| - 1]), teams[|teams| - 1]);
    }
  }

  /** The top of the ranking has the highest score, and the earliest creation among those with it. */
  lemma RankedTop(teams: seq<Team>)
    requires teams != []
    ensures Ranked(teams)[0] in teams
    ensures forall t | t in teams :: t.score <= Ranked(teams)[0].score
    ensures forall t | t in teams && t.score == Ranked(teams)[0].score :: Ranked(teams)[0].createdOrder <= t.createdOrder
  {
    var r := Ranked(teams);
    RankedSorted(teams);
    assert r[0] in multiset(teams);
    forall t | t in teams
      ensures !Precedes(t, r[0])
    {
      assert t in multiset(r);
      var j :| 0 <= j < |r| && r[j] == t;
    }
  }

  // ---------------------------------------------------------------------------
  // The leader effect
  // ---------------------------------------------------------------------------

  /** The new `leaderId` and whether the confetti fires. */
  datatype LeaderOutcome = LeaderOutcome(leaderId: Option<Id>, celebrate: bool)

  /**
    * One run of the leader effect over the ranking, with the current
    * `leaderId`: confetti fires only when the leader changes, always to the
    * top team, and every change to a new leader fires it.
    */
  function LeaderStep(ranked: seq<Team>, leaderId: Option<Id>): (r: LeaderOutcome)
    ensures r.celebrate ==> ranked != [] && r.leaderId == Some(ranked[0].id) && r.leaderId != leaderId
    ensures r.leaderId.Some? && r.leaderId != leaderId ==> r.celebrate
  {
    if ranked == [] then LeaderOutcome(leaderId, false)
    else if ranked[0].score <= 0 then LeaderOutcome(None, false)
    else if leaderId == Some(ranked[0].id) then LeaderOutcome(leaderId, false)
    else LeaderOutcome(Some(ranked[0].id), true)
  }

  /**
    * The confetti fires exactly when the top team has a positive score and
    * is not already the leader; with teams, the leader afterwards is the top
    * team when its score is positive and nobody otherwise; with no teams the
    * leader is left as it was.
    */
  lemma LeaderRule(ranked: seq<Team>, leaderId: Option<Id>)
    ensures LeaderStep(ranked, leaderId).celebrate
        <==> ranked != [] && ranked[0].score > 0 && leaderId != Some(ranked[0].id)
    ensures ranked != [] && ranked[0].score > 0 ==> LeaderStep(ranked, leaderId).leaderId == Some(ranked[0].id)
    ensures ranked != [] && ranked[0].score <= 0 ==> LeaderStep(ranked, leaderId).leaderId == None
    ensures ranked == [] ==> LeaderStep(ranked, leaderId) == LeaderOutcome(leaderId, false)
  {
  }

  /** The effect re-runs after it sets `leaderId`; the second run changes nothing and does not fire. */
  lemma LeaderSettles(ranked: seq<Team>, leaderId: Option<Id>)
    ensures var first := LeaderStep(ranked, leaderId);
      LeaderStep(ranked, first.leaderId) == LeaderOutcome(first.leaderId, false)
  {
  }

  /**
    * Two teams at 0. A point for the first makes it leader, with confetti;
    * a point for the second ties, and the first stays on top as the earlier
    * team, without confetti; setting the first to -5 makes the second
    * leader, with confetti; taking the second's point away leaves no
    * positive score, so nobody leads.
    */
  lemma LeaderScenario()
    ensures var a := Team(1, "Equipe 1", [], 0, None, None, 0);
      var b := Team(2, "Equipe 2", [], 0, None, None, 1);
      var t1 := ScoreDelta([a, b], 1, 1);
      var s1 := LeaderStep(Ranked(t1), None);
      var t2 := ScoreDelta(t1, 2, 1);
      var s2 := LeaderStep(Ranked(t2), s1.leaderId);
      var t3 := ScoreSet(t2, 1, Score(-5));
      var s3 := LeaderStep(Ranked(t3), s2.leaderId);
      var t4 := ScoreDelta(t3, 2, -1);
      var s4 := LeaderStep(Ranked(t4), s3.leaderId);
      && s1 == LeaderOutcome(Some(1), true)
      && s2 == LeaderOutcome(Some(1), false)
      && s3 == LeaderOutcome(Some(2), true)
      && s4 == LeaderOutcome(None, false)
  {
    var a := Team(1, "Equipe 1", [], 0, None, None, 0);
    var b := Team(2, "Equipe 2", [], 0, None, None, 1);
    var a1, b1, a5 := a.(score := 1), b.(score := 1), a.(score := -5);
    DeltaPair(a, b, 1, 1);
    RankedPair(a1, b);
    DeltaPair(a1, b, 2, 1);
    RankedPair(a1, b1);
    SetPair(a1, b1, 1, Score(-5));
    RankedPair(a5, b1);
    DeltaPair(a5, b1, 2, -1);
    RankedPair(a5, b);
  }

  lemma DeltaPair(x: Team, y: Team, teamId: Id, delta: int)
    ensures ScoreDelta([x, y], teamId, delta) ==
      [ if x.id == teamId then x.(score := x.score + delta) else x,
        if y.id == teamId then y.(score := y.score + delta) else y ]
  {
  }

  lemma SetPair(x: Team, y: Team, teamId: Id, input: ScoreInput)
    ensures ScoreSet([x, y], teamId, input) ==
      [ if x.id == teamId then x.(score := ScoreValue(input)) else x,
        if y.id == teamId then y.(score := ScoreValue(input)) else y ]
  {
  }

  /** Two teams are ranked by one comparison: the second goes first only if it strictly precedes the first. */
  lemma RankedPair(x: Team, y: Team)
    ensures Ranked([x, y]) == if Precedes(y, x) then [y, x] else [x, y]
  {
    assert [x, y][..1] == [x];
    assert [x][..0] == [];
  }

  /** A leader chosen from the ranking holds the highest score among all teams, and that score is positive. */
  lemma LeaderHasTopScore(teams: seq<Team>, leaderId: Option<Id>)
    requires teams != []
    ensures var out := LeaderStep(Ranked(teams), leaderId);
      out.leaderId.Some? ==>
        exists t | t in teams :: Some(t.id) == out.leaderId && t.score > 0
          && forall u | u in teams :: u.score <= t.score
  {
    RankedTop(teams);
  }
}
