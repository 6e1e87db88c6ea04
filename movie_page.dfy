/**
 * The principal crew of a movie page: the crew credits whose job is one of six important jobs,
 * one entry per person collecting their distinct important jobs, the jobs ordered by their
 * place in the list of important jobs, and the people ordered by the place of their first
 * job and then by name. The page hands the result, with the movie's details, to the header.
 */
module MoviePage {
  import opened Wrappers
  import Collections
  import Sorting

  const ImportantJobs: seq<string> := ["Director", "Writer", "Characters", "Novel", "Screenplay", "Story"]

  /** A crew credit of a movie: the person's id and name, and the job, which may be missing. */
  datatype CrewMember = CrewMember(id: nat, name: string, job: Option<string>)

  /** An entry of the grouped crew. */
  datatype GroupedCrew = GroupedCrew(id: nat, name: string, jobs: seq<string>)

  /** A person's name and jobs: what the comparator of people looks at. */
  datatype NamedJobs = NamedJobs(name: string, jobs: seq<string>)

  /** `importantJobs.indexOf(job)`: the job's place in the list, or -1 for any other job. */
  function JobIndex(job: string): (k: int)
    ensures -1 <= k < |ImportantJobs|
    ensures k >= 0 ==> ImportantJobs[k] == job
    ensures k == -1 <==> job !in ImportantJobs
  {
    if job in ImportantJobs then Collections.FirstIndex(ImportantJobs, job) else -1
  }

  /** `!person.job || !importantJobs.includes(person.job)` is false: the credit is kept. The empty
      job is not an important one, so being important is enough. */
  predicate Kept(c: CrewMember) {
    c.job.Some? && c.job.value in ImportantJobs
  }

  // ---------------------------------------------------------------------------------------
  // The reduce

  /** One turn of the `reduce`: create the entry on the person's first kept credit, then push
      the job unless the entry has it already. */
  function AddMember(acc: map<nat, GroupedCrew>, c: CrewMember): map<nat, GroupedCrew> {
    if !Kept(c) then acc
    else
      var e := if c.id in acc then acc[c.id] else GroupedCrew(c.id, c.name, []);
      acc[c.id := if c.job.value in e.jobs then e else e.(jobs := e.jobs + [c.job.value])]
  }

  /** The accumulator after the credits `crew`. */
  function AccOf(crew: seq<CrewMember>): map<nat, GroupedCrew> {
    if crew == [] then map[] else AddMember(AccOf(crew[..|crew| - 1]), crew[|crew| - 1])
  }

  /** The ids of the kept credits, in input order. */
  function KeptIds(crew: seq<CrewMember>): seq<nat> {
    if crew == [] then []
    else
      var last := crew[|crew| - 1];
      KeptIds(crew[..|crew| - 1]) + if Kept(last) then [last.id] else []
  }

  /** `Object.values(acc)` when `ids` lists the record's keys in ascending order. */
  function ValuesAt<V>(acc: map<nat, V>, ids: seq<nat>): (r: seq<V>) {
    if ids == [] then [] else (if ids[0] in acc then [acc[ids[0]]] else []) + ValuesAt(acc, ids[1..])
  }

  /** When every listed key is in the record, each yields its entry, in the listed order. */
  lemma {:induction false} ValuesAtAll<V>(acc: map<nat, V>, ids: seq<nat>)
    requires forall id :: id in ids ==> id in acc
    ensures |ValuesAt(acc, ids)| == |ids|
    ensures forall k :: 0 <= k < |ids| ==> ValuesAt(acc, ids)[k] == acc[ids[k]]
  {
    if ids != [] {
      ValuesAtAll(acc, ids[1..]);
    }
  }

  /** `(a, b) => importantJobs.indexOf(a) - importantJobs.indexOf(b)`. */
  function JobOrder(a: string, b: string): int {
    JobIndex(a) - JobIndex(b)
  }

  /** `person.jobs.sort(...)`: the person's jobs by their place among the important jobs. */
  function SortJobs(e: GroupedCrew): GroupedCrew {
    e.(jobs := Sorting.SortBy(e.jobs, JobOrder))
  }

  /** `importantJobs.indexOf(a.jobs[0])`; an empty list gives `undefined`, which is not found. */
  function FirstJobIndex(jobs: seq<string>): int {
    if |jobs| > 0 then JobIndex(jobs[0]) else -1
  }

  /** The comparator of people: the place of the first job, then `localeCompare` on the names. */
  function NamedOrder(localeCompare: (string, string) -> int): (NamedJobs, NamedJobs) -> int {
    (a: NamedJobs, b: NamedJobs) =>
      var jobCompare := FirstJobIndex(a.jobs) - FirstJobIndex(b.jobs);
      if jobCompare != 0 then jobCompare else localeCompare(a.name, b.name)
  }

  function Named(e: GroupedCrew): NamedJobs {
    NamedJobs(e.name, e.jobs)
  }

  /** The same comparator on the page's entries, which carry an id it does not look at. */
  function PersonOrder(localeCompare: (string, string) -> int): (GroupedCrew, GroupedCrew) -> int {
    (a: GroupedCrew, b: GroupedCrew) => NamedOrder(localeCompare)(Named(a), Named(b))
  }

  /** The grouped crew the page builds. */
  function GroupedCrewOf(crew: seq<CrewMember>, localeCompare: (string, string) -> int): seq<GroupedCrew> {
    Sorting.SortBy(ValuesOf(crew), PersonOrder(localeCompare))
  }

  /** The keys of the accumulator in the order `Object.values` visits them: ascending. */
  function SortedIds(crew: seq<CrewMember>): seq<nat> {
    Sorting.SortBy(Collections.Dedup(KeptIds(crew)), Sorting.IdOrder)
  }

  /** The entries before the people are sorted, each with its jobs sorted. */
  function ValuesOf(crew: seq<CrewMember>): seq<GroupedCrew> {
    Collections.Map(ValuesAt(AccOf(crew), SortedIds(crew)), SortJobs)
  }

  /** A key is in the accumulator exactly when a kept credit has it as its id. */
  lemma {:induction false} AccDomain(crew: seq<CrewMember>, id: nat)
    ensures id in AccOf(crew) <==> id in KeptIds(crew)
  {
    if crew != [] {
      AccDomain(crew[..|crew| - 1], id);
    }
  }

  /** The keys of the accumulator are the ids of the kept credits, in the order first seen. */
  lemma AccKeys(crew: seq<CrewMember>)
    ensures forall id :: id in AccOf(crew) <==> id in Collections.Dedup(KeptIds(crew))
  {
    forall id: nat ensures id in AccOf(crew) <==> id in Collections.Dedup(KeptIds(crew)) {
      AccDomain(crew, id);
      Collections.DedupContains(KeptIds(crew), id);
    }
  }

  /** Every entry is stored under its own id. */
  lemma {:induction false} AccIds(crew: seq<CrewMember>, id: nat)
    requires id in AccOf(crew)
    ensures AccOf(crew)[id].id == id
  {
    var init := crew[..|crew| - 1];
    if id in AccOf(init) {
      AccIds(init, id);
    }
  }

  /** One more credit: the accumulator takes one turn, and a new id joins the end of the keys. */
  lemma AccSnoc(crew: seq<CrewMember>, i: nat)
    requires i < |crew|
    ensures AccOf(crew[..i + 1]) == AddMember(AccOf(crew[..i]), crew[i])
    ensures var order := Collections.Dedup(KeptIds(crew[..i]));
      Collections.Dedup(KeptIds(crew[..i + 1])) ==
        if Kept(crew[i]) && crew[i].id !in order then order + [crew[i].id] else order
  {
    assert crew[..i + 1][..i] == crew[..i];
    var ks := KeptIds(crew[..i]);
    if Kept(crew[i]) {
      Collections.DedupSnoc(ks, crew[i].id);
    } else {
      assert KeptIds(crew[..i + 1]) == ks + [];
      assert ks + [] == ks;
    }
  }

  /** The `reduce` of `groupedCrew`: the record of entries, and its keys in the order they were added. */
  method CollectImportantCrew(crew: seq<CrewMember>) returns (acc: map<nat, GroupedCrew>, order: seq<nat>)
    ensures acc == AccOf(crew)
    ensures order == Collections.Dedup(KeptIds(crew))
  {
    acc := map[];
    order := [];
    for i := 0 to |crew|
      invariant acc == AccOf(crew[..i])
      invariant order == Collections.Dedup(KeptIds(crew[..i]))
    {
      AccSnoc(crew, i);
      AccKeys(crew[..i]);
      acc, order := AddToRecord(acc, order, crew[i]);
    }
    assert crew[..|crew|] == crew;
  }

  /** One turn of the `reduce`: a kept credit opens its person's entry if needed and adds its job once. */
  method AddToRecord(acc: map<nat, GroupedCrew>, order: seq<nat>, person: CrewMember)
    returns (acc': map<nat, GroupedCrew>, order': seq<nat>)
    requires person.id in acc <==> person.id in order
    ensures acc' == AddMember(acc, person)
    ensures order' == if Kept(person) && person.id !in order then order + [person.id] else order
  {
    acc', order' := acc, order;
    if Kept(person) {
      var job := person.job.value;
      if person.id !in acc' {
        acc' := acc'[person.id := GroupedCrew(person.id, person.name, [])];
        order' := order' + [person.id];
      }
      if job !in acc'[person.id].jobs {
        acc' := acc'[person.id := acc'[person.id].(jobs := acc'[person.id].jobs + [job])];
      }
    }
  }

  /**
   * The grouping of `groupedCrew`: the `reduce` over the credits, then `Object.values`, then the
   * in-place sort of every person's jobs, then the in-place sort of the people.
   */
  method GroupImportantCrew(crew: seq<CrewMember>, localeCompare: (string, string) -> int)
    returns (groupedCrew: seq<GroupedCrew>)
    ensures groupedCrew == GroupedCrewOf(crew, localeCompare)
  {
    var acc, order := CollectImportantCrew(crew);
    AccKeys(crew);
    var ids := Sorting.SortBy(order, Sorting.IdOrder);
    assert ids == SortedIds(crew);
    forall id | id in ids ensures id in acc {
      Sorting.SortByMembers(order, Sorting.IdOrder, id);
    }
    ValuesAtAll(acc, ids);
    groupedCrew := SortEveryJobList(ValuesAt(acc, ids));
    assert groupedCrew == ValuesOf(crew);
    groupedCrew := Sorting.SortBy(groupedCrew, PersonOrder(localeCompare));
  }

  /** `groupedCrew.forEach(p => p.jobs.sort(...))`: every person's jobs sorted in place. */
  method SortEveryJobList(values: seq<GroupedCrew>) returns (groupedCrew: seq<GroupedCrew>)
    ensures groupedCrew == Collections.Map(values, SortJobs)
  {
    groupedCrew := values;
    for k := 0 to |groupedCrew|
      invariant |groupedCrew| == |values|
      invariant forall j :: 0 <= j < k ==> groupedCrew[j] == SortJobs(values[j])
      invariant forall j :: k <= j < |values| ==> groupedCrew[j] == values[j]
    {
      var person := groupedCrew[k];
      groupedCrew := groupedCrew[k := person.(jobs := Sorting.SortBy(person.jobs, JobOrder))];
    }
  }

  // ---------------------------------------------------------------------------------------
  // Reference definitions

  /** The kept credits of person `id`, in input order. */
  function KeptOf(crew: seq<CrewMember>, id: nat): (r: seq<CrewMember>)
    ensures AllKept(r)
    ensures forall k :: 0 <= k < |r| ==> r[k].id == id
  {
    if crew == [] then []
    else
      var last := crew[|crew| - 1];
      KeptOf(crew[..|crew| - 1], id) + if Kept(last) && last.id == id then [last] else []
  }

  predicate AllKept(cs: seq<CrewMember>) {
    forall k :: 0 <= k < |cs| ==> Kept(cs[k])
  }

  /** The jobs of some kept credits, in order. */
  function JobsOf(cs: seq<CrewMember>): (r: seq<string>)
    requires AllKept(cs)
    ensures |r| == |cs|
  {
    if cs == [] then []
    else
      assert Kept(cs[|cs| - 1]);
      JobsOf(cs[..|cs| - 1]) + [cs[|cs| - 1].job.value]
  }

  /** A person's entry before its jobs are sorted: id and name of the first kept credit, and the
      distinct jobs in the order they first appear. */
  function Summary(cs: seq<CrewMember>): GroupedCrew
    requires cs != [] && AllKept(cs)
  {
    GroupedCrew(cs[0].id, cs[0].name, Collections.Dedup(JobsOf(cs)))
  }

  // ---------------------------------------------------------------------------------------
  // Proofs

  lemma SummarySnoc(cs: seq<CrewMember>, x: CrewMember)
    requires cs != [] && AllKept(cs) && Kept(x)
    ensures Summary(cs + [x]) == Summary(cs).(jobs :=
      if x.job.value in Summary(cs).jobs then Summary(cs).jobs else Summary(cs).jobs + [x.job.value])
  {
    var all := cs + [x];
    assert all[..|cs|] == cs;
    Collections.DedupSnoc(JobsOf(cs), x.job.value);
  }

  /** A person has an entry exactly when they have a kept credit, and the entry summarises them. */
  lemma {:induction false} EntryIsSummary(crew: seq<CrewMember>, id: nat)
    ensures id in AccOf(crew) <==> KeptOf(crew, id) != []
    ensures id in AccOf(crew) ==> AccOf(crew)[id] == Summary(KeptOf(crew, id))
  {
    if crew != [] {
      var init := crew[..|crew| - 1];
      var x := crew[|crew| - 1];
      EntryIsSummary(init, id);
      var cs := KeptOf(init, id);
      if Kept(x) && x.id == id {
        assert KeptOf(crew, id) == cs + [x];
        if cs == [] {
          assert cs + [x] == [x];
          assert JobsOf([x]) == [] + [x.job.value];
          Collections.DedupSnoc([], x.job.value);
        } else {
          SummarySnoc(cs, x);
        }
      } else {
        assert KeptOf(crew, id) == cs;
      }
    }
  }

  lemma {:induction false} KeptOfContains(crew: seq<CrewMember>, i: nat)
    requires i < |crew| && Kept(crew[i])
    ensures exists k :: 0 <= k < |KeptOf(crew, crew[i].id)| && KeptOf(crew, crew[i].id)[k] == crew[i]
  {
    var init := crew[..|crew| - 1];
    if i < |init| {
      KeptOfContains(init, i);
      assert init[i] == crew[i];
      var k :| 0 <= k < |KeptOf(init, crew[i].id)| && KeptOf(init, crew[i].id)[k] == crew[i];
      assert KeptOf(crew, crew[i].id)[k] == crew[i];
    } else {
      var r := KeptOf(crew, crew[i].id);
      assert r[|r| - 1] == crew[i];
    }
  }

  lemma {:induction false} JobsOfContains(cs: seq<CrewMember>, i: nat)
    requires AllKept(cs) && i < |cs|
    ensures Kept(cs[i]) && cs[i].job.value in JobsOf(cs)
  {
    var init := cs[..|cs| - 1];
    if i < |init| {
      JobsOfContains(init, i);
      assert init[i] == cs[i];
    }
  }

  lemma {:induction false} JobsOfImportant(cs: seq<CrewMember>)
    requires AllKept(cs)
    ensures forall j :: j in JobsOf(cs) ==> j in ImportantJobs
  {
    if cs != [] {
      JobsOfImportant(cs[..|cs| - 1]);
      assert Kept(cs[|cs| - 1]);
    }
  }

  /** The job comparator is a difference of numbers, so sorting by it is well defined. */
  lemma JobOrderConsistent(s: seq<string>)
    ensures Sorting.ConsistentOn(JobOrder, s)
  {
    forall a, b | a in s && b in s ensures JobOrder(a, b) <= 0 || JobOrder(b, a) <= 0 {
    }
    forall a, b, c | a in s && b in s && c in s && JobOrder(a, b) <= 0 && JobOrder(b, c) <= 0
      ensures JobOrder(a, c) <= 0
    {
    }
  }

  /** Two different important jobs have different places. */
  lemma JobIndexDistinct(a: string, b: string)
    requires a in ImportantJobs && b in ImportantJobs && a != b
    ensures JobIndex(a) != JobIndex(b)
  {
  }

  /** A person's sorted jobs: all different, all important, and strictly by place in the list. */
  lemma SortedJobs(jobs: seq<string>)
    requires Collections.NoDup(jobs) && forall j :: j in jobs ==> j in ImportantJobs
    ensures var r := Sorting.SortBy(jobs, JobOrder);
      && multiset(r) == multiset(jobs) && Collections.NoDup(r)
      && (forall i, j :: 0 <= i < j < |r| ==> JobIndex(r[i]) < JobIndex(r[j]))
  {
    var r := Sorting.SortBy(jobs, JobOrder);
    Collections.NoDupPermutation(jobs, r);
    JobOrderConsistent(jobs);
    Sorting.SortBySorted(jobs, JobOrder);
    forall i, j | 0 <= i < j < |r| ensures JobIndex(r[i]) < JobIndex(r[j]) {
      assert r[i] != r[j];
      assert JobOrder(r[i], r[j]) <= 0;
      Sorting.SortByMembers(jobs, JobOrder, r[i]);
      Sorting.SortByMembers(jobs, JobOrder, r[j]);
      JobIndexDistinct(r[i], r[j]);
    }
  }

  /** `localeCompare` puts any two names in some order, transitively. */
  ghost predicate TotalPreorder(localeCompare: (string, string) -> int) {
    && (forall a, b :: localeCompare(a, b) <= 0 || localeCompare(b, a) <= 0)
    && (forall a, b, c :: localeCompare(a, b) <= 0 && localeCompare(b, c) <= 0 ==> localeCompare(a, c) <= 0)
  }

  /** With such a `localeCompare`, the comparator of people is consistent. */
  lemma NamedOrderConsistent(localeCompare: (string, string) -> int, s: seq<NamedJobs>)
    requires TotalPreorder(localeCompare)
    ensures Sorting.ConsistentOn(NamedOrder(localeCompare), s)
  {
    var cmp := NamedOrder(localeCompare);
    forall a, b | a in s && b in s ensures cmp(a, b) <= 0 || cmp(b, a) <= 0 {
      assert localeCompare(a.name, b.name) <= 0 || localeCompare(b.name, a.name) <= 0;
    }
    forall a, b, c | a in s && b in s && c in s && cmp(a, b) <= 0 && cmp(b, c) <= 0 ensures cmp(a, c) <= 0 {
      if FirstJobIndex(a.jobs) == FirstJobIndex(c.jobs) {
        assert localeCompare(a.name, b.name) <= 0 && localeCompare(b.name, c.name) <= 0;
      }
    }
  }

  lemma PersonOrderConsistent(localeCompare: (string, string) -> int, s: seq<GroupedCrew>)
    requires TotalPreorder(localeCompare)
    ensures Sorting.ConsistentOn(PersonOrder(localeCompare), s)
  {
    var cmp := PersonOrder(localeCompare);
    var ns := Collections.Map(s, Named);
    NamedOrderConsistent(localeCompare, ns);
    forall a, b | a in s && b in s ensures cmp(a, b) <= 0 || cmp(b, a) <= 0 {
      assert Named(a) in ns && Named(b) in ns;
    }
    forall a, b, c | a in s && b in s && c in s && cmp(a, b) <= 0 && cmp(b, c) <= 0 ensures cmp(a, c) <= 0 {
      assert Named(a) in ns && Named(b) in ns && Named(c) in ns;
    }
  }

  /** The ids listed by `Object.values`: every kept person once, ascending. */
  lemma ValueIds(crew: seq<CrewMember>)
    ensures var ids := SortedIds(crew);
      && Collections.NoDup(ids)
      && (forall id :: id in ids <==> id in AccOf(crew))
      && (forall i, j :: 0 <= i < j < |ids| ==> ids[i] < ids[j])
  {
    var seen := Collections.Dedup(KeptIds(crew));
    var ids := SortedIds(crew);
    Collections.DedupNoDup(KeptIds(crew));
    Collections.NoDupPermutation(seen, ids);
    Sorting.SortBySorted(seen, Sorting.IdOrder);
    forall i, j | 0 <= i < j < |ids| ensures ids[i] < ids[j] {
      assert ids[i] != ids[j];
      assert Sorting.IdOrder(ids[i], ids[j]) <= 0;
    }
    AccKeys(crew);
    forall id ensures id in ids <==> id in seen {
      Sorting.SortByMembers(seen, Sorting.IdOrder, id);
    }
  }

  /** The entries before the people are sorted: the accumulator's entries by ascending id, each
      with its jobs sorted. */
  lemma Values(crew: seq<CrewMember>)
    ensures var ids := SortedIds(crew);
      var vs := ValuesOf(crew);
      && |vs| == |ids| && Collections.NoDup(vs)
      && (forall k :: 0 <= k < |vs| ==> ids[k] in AccOf(crew) && vs[k] == SortJobs(AccOf(crew)[ids[k]]) && vs[k].id == ids[k])
  {
    var ids := SortedIds(crew);
    var acc := AccOf(crew);
    ValueIds(crew);
    ValuesAtAll(acc, ids);
    var raw := ValuesAt(acc, ids);
    var vs := ValuesOf(crew);
    assert vs == Collections.Map(raw, SortJobs);
    forall k | 0 <= k < |ids| ensures ids[k] in acc && vs[k] == SortJobs(acc[ids[k]]) && vs[k].id == ids[k] {
      AccIds(crew, ids[k]);
    }
    forall i, j | 0 <= i < j < |vs| ensures vs[i] != vs[j] {
      assert vs[i].id == ids[i] && vs[j].id == ids[j];
    }
  }

  /**
   * An entry summarises the kept credits of its person: it is named after the first of them,
   * has at least one job, every job important and listed once, the same jobs as the credits,
   * and the jobs by their place among the important jobs.
   */
  predicate SummarisesPerson(crew: seq<CrewMember>, e: GroupedCrew) {
    var cs := KeptOf(crew, e.id);
    && cs != [] && e.name == cs[0].name
    && |e.jobs| >= 1 && Collections.NoDup(e.jobs)
    && multiset(e.jobs) == multiset(Collections.Dedup(JobsOf(cs)))
    && (forall j :: j in e.jobs ==> j in ImportantJobs)
    && (forall a, b :: 0 <= a < b < |e.jobs| ==> JobIndex(e.jobs[a]) < JobIndex(e.jobs[b]))
  }

  /** No two entries are for the same person. */
  predicate DistinctIds(vs: seq<GroupedCrew>) {
    forall i, j :: 0 <= i < j < |vs| ==> vs[i].id != vs[j].id
  }

  /** What one person's entry holds once the jobs are sorted. */
  lemma EntryFacts(crew: seq<CrewMember>, id: nat)
    requires id in AccOf(crew)
    ensures SortJobs(AccOf(crew)[id]).id == id && SummarisesPerson(crew, SortJobs(AccOf(crew)[id]))
  {
    var cs := KeptOf(crew, id);
    EntryIsSummary(crew, id);
    AccIds(crew, id);
    var jobs := Collections.Dedup(JobsOf(cs));
    var e := SortJobs(AccOf(crew)[id]);
    Collections.DedupNoDup(JobsOf(cs));
    JobsOfImportant(cs);
    forall j | j in jobs ensures j in ImportantJobs {
      Collections.DedupContains(JobsOf(cs), j);
    }
    SortedJobs(jobs);
    JobsOfContains(cs, 0);
    Collections.DedupContains(JobsOf(cs), cs[0].job.value);
    assert |jobs| >= 1;
    forall j | j in e.jobs ensures j in ImportantJobs {
      assert j in multiset(e.jobs);
    }
  }

  /** Sorting keeps entries for different people apart. */
  lemma SortKeepsDistinctIds(vs: seq<GroupedCrew>, cmp: (GroupedCrew, GroupedCrew) -> int)
    requires DistinctIds(vs)
    ensures DistinctIds(Sorting.SortBy(vs, cmp))
  {
    var r := Sorting.SortBy(vs, cmp);
    assert Collections.NoDup(vs);
    Collections.NoDupPermutation(vs, r);
    forall i, j | 0 <= i < j < |r| ensures r[i].id != r[j].id {
      Sorting.SortByMembers(vs, cmp, r[i]);
      Sorting.SortByMembers(vs, cmp, r[j]);
      var p :| 0 <= p < |vs| && vs[p] == r[i];
      var q :| 0 <= q < |vs| && vs[q] == r[j];
      assert p != q;
    }
  }

  /** The entries before the people are sorted: one per person, each summarising the person. */
  lemma ValuesEntries(crew: seq<CrewMember>)
    ensures DistinctIds(ValuesOf(crew))
    ensures forall k :: 0 <= k < |ValuesOf(crew)| ==> SummarisesPerson(crew, ValuesOf(crew)[k])
  {
    var ids := SortedIds(crew);
    var vs := ValuesOf(crew);
    Values(crew);
    ValueIds(crew);
    forall k | 0 <= k < |vs| ensures SummarisesPerson(crew, vs[k]) {
      EntryFacts(crew, ids[k]);
    }
  }

  /** The grouped crew: one entry per person, each summarising the person's kept credits. */
  lemma GroupedCrewEntries(crew: seq<CrewMember>, localeCompare: (string, string) -> int)
    ensures DistinctIds(GroupedCrewOf(crew, localeCompare))
    ensures forall k :: 0 <= k < |GroupedCrewOf(crew, localeCompare)| ==>
      SummarisesPerson(crew, GroupedCrewOf(crew, localeCompare)[k])
  {
    var vs := ValuesOf(crew);
    var cmp := PersonOrder(localeCompare);
    ValuesEntries(crew);
    SortKeepsDistinctIds(vs, cmp);
    Sorting.SortByAll(vs, cmp, e => SummarisesPerson(crew, e));
  }

  /** Every kept credit's job is listed in its person's entry. */
  lemma GroupedCrewCovers(crew: seq<CrewMember>, localeCompare: (string, string) -> int, i: nat)
    requires i < |crew| && Kept(crew[i])
    ensures var r := GroupedCrewOf(crew, localeCompare);
      exists k :: 0 <= k < |r| && r[k].id == crew[i].id && crew[i].job.value in r[k].jobs
  {
    var vs := ValuesOf(crew);
    var r := Sorting.SortBy(vs, PersonOrder(localeCompare));
    assert r == GroupedCrewOf(crew, localeCompare);
    ValuesCover(crew, i);
    var p :| 0 <= p < |vs| && vs[p].id == crew[i].id && crew[i].job.value in vs[p].jobs;
    var k := Sorting.SortByPosition(vs, PersonOrder(localeCompare), vs[p]);
    assert r[k] == vs[p];
  }

  /** The same before the people are sorted. */
  lemma ValuesCover(crew: seq<CrewMember>, i: nat)
    requires i < |crew| && Kept(crew[i])
    ensures var vs := ValuesOf(crew);
      exists p :: 0 <= p < |vs| && vs[p].id == crew[i].id && crew[i].job.value in vs[p].jobs
  {
    var ids := SortedIds(crew);
    var vs := ValuesOf(crew);
    var id := crew[i].id;
    Values(crew);
    ValueIds(crew);
    KeptOfContains(crew, i);
    EntryIsSummary(crew, id);
    assert id in ids;
    var p :| 0 <= p < |ids| && ids[p] == id;
    var cs := KeptOf(crew, id);
    var q :| 0 <= q < |cs| && cs[q] == crew[i];
    JobsOfContains(cs, q);
    Collections.DedupContains(JobsOf(cs), crew[i].job.value);
    SortJobsMembers(AccOf(crew)[id], crew[i].job.value);
  }

  /** Sorting a person's jobs keeps exactly the same jobs. */
  lemma SortJobsMembers(e: GroupedCrew, job: string)
    ensures job in SortJobs(e).jobs <==> job in e.jobs
  {
    Sorting.SortByMembers(e.jobs, JobOrder, job);
  }

  lemma {:induction false} KeptOfSound(crew: seq<CrewMember>, id: nat, c: CrewMember)
    requires c in KeptOf(crew, id)
    ensures exists i :: 0 <= i < |crew| && crew[i] == c
  {
    var init := crew[..|crew| - 1];
    if c in KeptOf(init, id) {
      KeptOfSound(init, id, c);
      var i :| 0 <= i < |init| && init[i] == c;
      assert crew[i] == c;
    } else {
      assert crew[|crew| - 1] == c;
    }
  }

  /** A person none of whose credits has an important job gets no entry. */
  lemma UnimportantDropped(crew: seq<CrewMember>, localeCompare: (string, string) -> int, id: nat)
    requires forall i :: 0 <= i < |crew| && crew[i].id == id ==> !Kept(crew[i])
    ensures forall k :: 0 <= k < |GroupedCrewOf(crew, localeCompare)| ==> GroupedCrewOf(crew, localeCompare)[k].id != id
  {
    var r := GroupedCrewOf(crew, localeCompare);
    GroupedCrewEntries(crew, localeCompare);
    forall k | 0 <= k < |r| ensures r[k].id != id {
      if r[k].id == id {
        var cs := KeptOf(crew, id);
        assert cs[0] in cs;
        KeptOfSound(crew, id, cs[0]);
      }
    }
  }

  /**
   * The people in the order of the page: by the place of their first job and, for the same
   * place, by `localeCompare` on the names. (The grouped crew is `ValuesOf` sorted this way.)
   */
  lemma PeopleOrder(vs: seq<GroupedCrew>, localeCompare: (string, string) -> int)
    requires TotalPreorder(localeCompare)
    ensures var r := Sorting.SortBy(vs, PersonOrder(localeCompare));
      forall i, j :: 0 <= i < j < |r| ==>
        FirstJobIndex(r[i].jobs) < FirstJobIndex(r[j].jobs)
        || (FirstJobIndex(r[i].jobs) == FirstJobIndex(r[j].jobs) && localeCompare(r[i].name, r[j].name) <= 0)
  {
    var cmp := PersonOrder(localeCompare);
    var r := Sorting.SortBy(vs, cmp);
    PersonOrderConsistent(localeCompare, vs);
    Sorting.SortBySorted(vs, cmp);
    forall i, j | 0 <= i < j < |r| ensures
        FirstJobIndex(r[i].jobs) < FirstJobIndex(r[j].jobs)
        || (FirstJobIndex(r[i].jobs) == FirstJobIndex(r[j].jobs) && localeCompare(r[i].name, r[j].name) <= 0)
    {
      assert cmp(r[i], r[j]) <= 0;
      PersonOrderMeaning(localeCompare, r[i], r[j]);
    }
  }

  /** What it means for the comparator of people to accept `a` before `b`. */
  lemma PersonOrderMeaning(localeCompare: (string, string) -> int, a: GroupedCrew, b: GroupedCrew)
    ensures PersonOrder(localeCompare)(a, b) <= 0 <==>
      FirstJobIndex(a.jobs) < FirstJobIndex(b.jobs)
      || (FirstJobIndex(a.jobs) == FirstJobIndex(b.jobs) && localeCompare(a.name, b.name) <= 0)
  {
    assert PersonOrder(localeCompare)(a, b) == NamedOrder(localeCompare)(Named(a), Named(b));
  }

  // ---------------------------------------------------------------------------------------
  // What the page passes on

  datatype Genre = Genre(id: int, name: string)

  /** The movie details the page copies into the header's model. */
  datatype MovieDetails = MovieDetails(id: nat, title: string, overview: string, genres: seq<Genre>,
                                       tagline: Option<string>, runtime: Option<int>)

  /** The header's model of a movie or a show, with its principal crew. */
  datatype MediaBase = MediaBase(id: nat, title: string, overview: string, genres: seq<Genre>,
                                 tagline: Option<string>, crew: seq<GroupedCrew>, runtime: Option<int>,
                                 mediaType: string)

  /** `genres.map((g) => ({ id: g.id, name: g.name }))`: a copy of every genre. */
  function CopyGenres(genres: seq<Genre>): (r: seq<Genre>)
    ensures |r| == |genres|
    ensures forall k :: 0 <= k < |r| ==> r[k].id == genres[k].id && r[k].name == genres[k].name
  {
    if genres == [] then [] else [Genre(genres[0].id, genres[0].name)] + CopyGenres(genres[1..])
  }

  /** The `media` object: the details copied over, the grouped crew as the crew, type `movie`. */
  function MovieMedia(details: MovieDetails, groupedCrew: seq<GroupedCrew>): (m: MediaBase)
    ensures m.crew == groupedCrew && m.mediaType == "movie" && m.genres == details.genres
    ensures m.id == details.id && m.title == details.title && m.runtime == details.runtime
  {
    MediaBase(details.id, details.title, details.overview, CopyGenres(details.genres), details.tagline,
              groupedCrew, details.runtime, "movie")
  }
}
