/**
 * The crew panel: `groupCrewByDepartment` files every crew credit under its department and,
 * within the department, under the person's id; a person with several credits in a department
 * gets one entry that collects the distinct jobs and the first portrait found. The panel lists
 * the departments in code unit order and, inside each, the people in ascending id order (the
 * order `Object.values` gives number keys).
 */
module CrewGrouped {
  import opened Wrappers
  import JsText
  import Collections
  import Sorting
  import opened Credits

  datatype PersonInDept = PersonInDept(id: nat, name: Option<string>, profilePath: Option<string>, jobs: seq<string>)

  /** Department, then person id, then the person's entry. */
  type Grouping = map<string, map<nat, PersonInDept>>

  /** `person.department ?? 'Other'`: only a missing department falls back; an empty one is kept. */
  function Department(c: Credit): (d: string)
    ensures c.department.None? ==> d == "Other"
    ensures c.department.Some? ==> d == c.department.value
  {
    c.department.GetOr("Other")
  }

  /** The entry a person's first credit in a department creates. */
  function NewEntry(c: Credit): PersonInDept {
    PersonInDept(c.id, c.name, c.profilePath, if JsText.Truthy(c.job) then [c.job.value] else [])
  }

  /** What a later credit of the same person in the same department changes in the entry. */
  function UpdateEntry(e: PersonInDept, c: Credit): PersonInDept {
    var jobs := if JsText.Truthy(c.job) && c.job.value !in e.jobs then e.jobs + [c.job.value] else e.jobs;
    var profile := if !JsText.Truthy(e.profilePath) && JsText.Truthy(c.profilePath) then c.profilePath else e.profilePath;
    PersonInDept(e.id, e.name, profile, jobs)
  }

  /** The grouping after one more turn of the `forEach`. */
  function AddCredit(g: Grouping, c: Credit): Grouping {
    var dept := Department(c);
    var people: map<nat, PersonInDept> := if dept in g then g[dept] else map[];
    var entry := if c.id in people then UpdateEntry(people[c.id], c) else NewEntry(c);
    g[dept := people[c.id := entry]]
  }

  /** The grouping after the credits `crew`. */
  ghost function GroupingOf(crew: seq<Credit>): Grouping {
    if crew == [] then map[] else AddCredit(GroupingOf(crew[..|crew| - 1]), crew[|crew| - 1])
  }

  /** `groupCrewByDepartment`. */
  method GroupCrewByDepartment(crew: seq<Credit>) returns (grouped: Grouping)
    ensures grouped == GroupingOf(crew)
    ensures forall dept :: dept in grouped <==> dept in Departments(crew)
  {
    grouped := map[];
    for i := 0 to |crew|
      invariant grouped == GroupingOf(crew[..i])
    {
      var person := crew[i];
      var dept := Department(person);
      ghost var before := grouped;
      if dept !in grouped {
        var empty: map<nat, PersonInDept> := map[];
        grouped := grouped[dept := empty];
      }
      var profilePath := person.profilePath;
      var job := person.job;
      var people: map<nat, PersonInDept> := grouped[dept];
      if person.id !in people {
        var jobs := if JsText.Truthy(job) then [job.value] else [];
        grouped := grouped[dept := people[person.id := PersonInDept(person.id, person.name, profilePath, jobs)]];
      } else {
        var entry := people[person.id];
        if JsText.Truthy(job) && job.value !in entry.jobs {
          entry := entry.(jobs := entry.jobs + [job.value]);
        }
        if !JsText.Truthy(entry.profilePath) && JsText.Truthy(profilePath) {
          entry := entry.(profilePath := profilePath);
        }
        grouped := grouped[dept := people[person.id := entry]];
      }
      assert grouped == AddCredit(before, person);
      assert crew[..i + 1][..i] == crew[..i];
    }
    assert crew[..|crew|] == crew;
    forall dept ensures dept in grouped <==> dept in Departments(crew) {
      DepartmentDomain(crew, dept);
    }
  }

  // ----- Reference definitions -----

  /** The department of every credit, in order. */
  function Departments(crew: seq<Credit>): (r: seq<string>)
    ensures |r| == |crew|
  {
    if crew == [] then [] else Departments(crew[..|crew| - 1]) + [Department(crew[|crew| - 1])]
  }

  /** Whether a credit is person `id`'s in department `dept`. */
  predicate Matches(c: Credit, dept: string, id: nat) {
    Department(c) == dept && c.id == id
  }

  /** The credits of person `id` in department `dept`, in input order. */
  function CreditsOf(crew: seq<Credit>, dept: string, id: nat): (r: seq<Credit>)
    ensures |r| <= |crew|
  {
    if crew == [] then []
    else
      var last := crew[|crew| - 1];
      CreditsOf(crew[..|crew| - 1], dept, id) + if Matches(last, dept, id) then [last] else []
  }

  /** The non-empty jobs of some credits, in order. */
  function JobsOf(cs: seq<Credit>): seq<string> {
    if cs == [] then []
    else
      var last := cs[|cs| - 1];
      JobsOf(cs[..|cs| - 1]) + if JsText.Truthy(last.job) then [last.job.value] else []
  }

  /** The position of the first credit with a non-empty portrait, or `|cs|` when there is none. */
  function FirstPortrait(cs: seq<Credit>): (k: nat)
    ensures k <= |cs|
    ensures forall j :: 0 <= j < k ==> !JsText.Truthy(cs[j].profilePath)
    ensures k < |cs| ==> JsText.Truthy(cs[k].profilePath)
  {
    if cs == [] then 0
    else if JsText.Truthy(cs[0].profilePath) then 0
    else 1 + FirstPortrait(cs[1..])
  }

  /**
   * What a person's entry should be, given their credits in the department: id and name of the
   * first credit, the first non-empty portrait (or the first credit's own value when there is
   * none), and the distinct non-empty jobs in the order they first appear.
   */
  function Summary(cs: seq<Credit>): PersonInDept
    requires cs != []
  {
    var k := FirstPortrait(cs);
    PersonInDept(cs[0].id, cs[0].name, if k < |cs| then cs[k].profilePath else cs[0].profilePath,
                 Collections.Dedup(JobsOf(cs)))
  }

  // ----- Proofs -----

  /** The first portrait is determined by its three properties. */
  lemma FirstPortraitUnique(cs: seq<Credit>, k: nat)
    requires k <= |cs|
    requires forall j :: 0 <= j < k ==> !JsText.Truthy(cs[j].profilePath)
    requires k < |cs| ==> JsText.Truthy(cs[k].profilePath)
    ensures FirstPortrait(cs) == k
  {
  }

  lemma SummarySingle(c: Credit)
    ensures Summary([c]) == NewEntry(c)
  {
    assert [c][..0] == [];
    assert JobsOf([c]) == if JsText.Truthy(c.job) then [c.job.value] else [];
    if JsText.Truthy(c.job) {
      Collections.DedupSnoc([], c.job.value);
      assert [] + [c.job.value] == [c.job.value];
    }
  }

  /** A later credit turns the summary of the earlier ones into the summary of all of them. */
  lemma SummarySnoc(cs: seq<Credit>, x: Credit)
    requires cs != []
    ensures Summary(cs + [x]) == UpdateEntry(Summary(cs), x)
  {
    var all := cs + [x];
    assert all[..|cs|] == cs;
    assert all[0] == cs[0];
    var k := FirstPortrait(cs);
    assert forall j :: 0 <= j < |cs| ==> all[j] == cs[j];
    if k < |cs| {
      FirstPortraitUnique(all, k);
    } else if JsText.Truthy(x.profilePath) {
      FirstPortraitUnique(all, |cs|);
    } else {
      FirstPortraitUnique(all, |all|);
      assert !JsText.Truthy(cs[0].profilePath);
    }
    var jobs := JobsOf(cs);
    assert JobsOf(all) == jobs + if JsText.Truthy(x.job) then [x.job.value] else [];
    var e := Summary(cs);
    assert e.jobs == Collections.Dedup(jobs);
    if JsText.Truthy(x.job) {
      Collections.DedupSnoc(jobs, x.job.value);
    } else {
      assert jobs + [] == jobs;
    }
    assert Summary(all).jobs == UpdateEntry(e, x).jobs;
    assert Summary(all).profilePath == UpdateEntry(e, x).profilePath;
  }

  /** Which departments the grouping has. */
  lemma {:induction false} DepartmentDomain(crew: seq<Credit>, dept: string)
    ensures dept in GroupingOf(crew) <==> dept in Departments(crew)
  {
    if crew != [] {
      DepartmentDomain(crew[..|crew| - 1], dept);
    }
  }

  /** One more credit adds or updates only its own person's entry in its own department. */
  lemma AddCreditEntry(g: Grouping, x: Credit, dept: string, id: nat)
    ensures var g' := AddCredit(g, x);
      dept in g' && id in g'[dept] <==> (dept in g && id in g[dept]) || Matches(x, dept, id)
    ensures var g' := AddCredit(g, x);
      !Matches(x, dept, id) && dept in g && id in g[dept] ==> g'[dept][id] == g[dept][id]
    ensures Matches(x, dept, id) ==>
      AddCredit(g, x)[dept][id] == if dept in g && id in g[dept] then UpdateEntry(g[dept][id], x) else NewEntry(x)
  {
  }

  /**
   * A person has an entry in a department exactly when they have a credit there, and the entry
   * is the summary of those credits.
   */
  lemma {:induction false} EntryIsSummary(crew: seq<Credit>, dept: string, id: nat)
    ensures var g := GroupingOf(crew);
      dept in g && id in g[dept] <==> CreditsOf(crew, dept, id) != []
    ensures var g := GroupingOf(crew);
      dept in g && id in g[dept] ==> g[dept][id] == Summary(CreditsOf(crew, dept, id))
  {
    if crew != [] {
      var init := crew[..|crew| - 1];
      var x := crew[|crew| - 1];
      EntryIsSummary(init, dept, id);
      AddCreditEntry(GroupingOf(init), x, dept, id);
      var cs := CreditsOf(init, dept, id);
      if Matches(x, dept, id) {
        assert CreditsOf(crew, dept, id) == cs + [x];
        if cs == [] {
          assert cs + [x] == [x];
          SummarySingle(x);
        } else {
          SummarySnoc(cs, x);
        }
      } else {
        assert CreditsOf(crew, dept, id) == cs;
      }
    }
  }

  lemma {:induction false} CreditsOfContains(crew: seq<Credit>, i: nat)
    requires i < |crew|
    ensures crew[i] in CreditsOf(crew, Department(crew[i]), crew[i].id)
  {
    var init := crew[..|crew| - 1];
    if i < |init| {
      CreditsOfContains(init, i);
      assert init[i] == crew[i];
    }
  }

  lemma {:induction false} CreditsOfMatch(crew: seq<Credit>, dept: string, id: nat)
    ensures forall c :: c in CreditsOf(crew, dept, id) ==> Matches(c, dept, id)
  {
    if crew != [] {
      CreditsOfMatch(crew[..|crew| - 1], dept, id);
    }
  }

  lemma {:induction false} JobsOfContains(cs: seq<Credit>, c: Credit)
    requires c in cs && JsText.Truthy(c.job)
    ensures c.job.value in JobsOf(cs)
  {
    var init := cs[..|cs| - 1];
    if c != cs[|cs| - 1] {
      assert c in init by {
        var i :| 0 <= i < |cs| && cs[i] == c;
        assert init[i] == c;
      }
      JobsOfContains(init, c);
    }
  }

  lemma {:induction false} JobsOfSound(cs: seq<Credit>, j: string)
    requires j in JobsOf(cs)
    ensures exists c :: c in cs && c.job == Some(j) && j != ""
  {
    var init := cs[..|cs| - 1];
    var last := cs[|cs| - 1];
    if j in JobsOf(init) {
      JobsOfSound(init, j);
      var c :| c in init && c.job == Some(j) && j != "";
      assert c in cs;
    } else {
      assert last.job == Some(j);
    }
  }

  /**
   * Each entry: one per person and department, id and name from the person's first credit
   * there, the jobs distinct and in order of first appearance, each one the non-empty job of
   * one of those credits, and the portrait the first non-empty one among them (the first
   * credit's own value when none is).
   */
  lemma Entry(crew: seq<Credit>, dept: string, id: nat)
    requires var g := GroupingOf(crew); dept in g && id in g[dept]
    ensures var e := GroupingOf(crew)[dept][id];
      var cs := CreditsOf(crew, dept, id);
      && cs != [] && e.id == id && e.name == cs[0].name
      && Collections.NoDup(e.jobs)
      && (forall j :: j in e.jobs ==> exists c :: c in cs && c.job == Some(j) && j != "")
      && e.jobs == Collections.Dedup(JobsOf(cs))
      && (var k := FirstPortrait(cs);
          && (k < |cs| ==> e.profilePath == cs[k].profilePath)
          && (k == |cs| ==> e.profilePath == cs[0].profilePath))
  {
    EntryIsSummary(crew, dept, id);
    var cs := CreditsOf(crew, dept, id);
    CreditsOfMatch(crew, dept, id);
    assert cs[0] in cs;
    Collections.DedupNoDup(JobsOf(cs));
    forall j | j in GroupingOf(crew)[dept][id].jobs ensures exists c :: c in cs && c.job == Some(j) && j != "" {
      Collections.DedupContains(JobsOf(cs), j);
      JobsOfSound(cs, j);
    }
  }

  /** Every credit's non-empty job is listed in the entry of its person in its department. */
  lemma JobListed(crew: seq<Credit>, i: nat)
    requires i < |crew| && JsText.Truthy(crew[i].job)
    ensures var g := GroupingOf(crew); var dept := Department(crew[i]);
      dept in g && crew[i].id in g[dept] && crew[i].job.value in g[dept][crew[i].id].jobs
  {
    var dept := Department(crew[i]);
    var id := crew[i].id;
    CreditsOfContains(crew, i);
    EntryIsSummary(crew, dept, id);
    var cs := CreditsOf(crew, dept, id);
    JobsOfContains(cs, crew[i]);
    Collections.DedupContains(JobsOf(cs), crew[i].job.value);
  }

  /** A credit without a job adds no job to its entry. */
  lemma NoJobNoChange(g: Grouping, c: Credit)
    requires !JsText.Truthy(c.job)
    requires Department(c) in g && c.id in g[Department(c)]
    ensures AddCredit(g, c)[Department(c)][c.id].jobs == g[Department(c)][c.id].jobs
  {
  }

  // ----- How many entries -----

  /** The (department, id) pairs of the grouping. */
  ghost function EntryKeys(g: Grouping): set<(string, nat)> {
    set dept, id | dept in g && id in g[dept] :: (dept, id)
  }

  /** The (department, id) pair of every credit. */
  ghost function CreditKeys(crew: seq<Credit>): set<(string, nat)> {
    if crew == [] then {}
    else
      var last := crew[|crew| - 1];
      CreditKeys(crew[..|crew| - 1]) + {(Department(last), last.id)}
  }

  lemma {:induction false} CreditKeysSize(crew: seq<Credit>)
    ensures |CreditKeys(crew)| <= |crew|
  {
    if crew != [] {
      CreditKeysSize(crew[..|crew| - 1]);
    }
  }

  lemma {:induction false} CreditKeysMembers(crew: seq<Credit>, dept: string, id: nat)
    ensures (dept, id) in CreditKeys(crew) <==> CreditsOf(crew, dept, id) != []
  {
    if crew != [] {
      CreditKeysMembers(crew[..|crew| - 1], dept, id);
    }
  }

  /** There are at most as many entries as credits. */
  lemma EntriesBounded(crew: seq<Credit>)
    ensures |EntryKeys(GroupingOf(crew))| <= |crew|
  {
    var g := GroupingOf(crew);
    forall p | p in EntryKeys(g) ensures p in CreditKeys(crew) {
      EntryIsSummary(crew, p.0, p.1);
      CreditKeysMembers(crew, p.0, p.1);
    }
    forall p | p in CreditKeys(crew) ensures p in EntryKeys(g) {
      EntryIsSummary(crew, p.0, p.1);
      CreditKeysMembers(crew, p.0, p.1);
    }
    assert EntryKeys(g) == CreditKeys(crew);
    CreditKeysSize(crew);
  }

  /** The number in the panel's header: `crew.length`, every credit counted, repeats included. */
  function HeaderCount(crew: seq<Credit>): nat {
    |crew|
  }

  /**
   * The header never shows fewer than the entries the panel lists, and it counts credits, not
   * people: it equals the number of entries exactly when no person has two credits in one
   * department.
   */
  lemma HeaderCountsCredits(crew: seq<Credit>)
    ensures |EntryKeys(GroupingOf(crew))| <= HeaderCount(crew)
    ensures |EntryKeys(GroupingOf(crew))| == HeaderCount(crew) <==> |CreditKeys(crew)| == |crew|
  {
    EntriesBounded(crew);
    var g := GroupingOf(crew);
    forall p | p in EntryKeys(g) ensures p in CreditKeys(crew) {
      EntryIsSummary(crew, p.0, p.1);
      CreditKeysMembers(crew, p.0, p.1);
    }
    forall p | p in CreditKeys(crew) ensures p in EntryKeys(g) {
      EntryIsSummary(crew, p.0, p.1);
      CreditKeysMembers(crew, p.0, p.1);
    }
    assert EntryKeys(g) == CreditKeys(crew);
  }

  /** A director who also wrote the film: two credits in one department, one entry, header 2. */
  lemma HeaderCountExample(c: Credit)
    requires c.department == Some("Directing") && c.job == Some("Director")
    ensures var crew := [c, c.(job := Some("Writer"))];
      HeaderCount(crew) == 2 && |EntryKeys(GroupingOf(crew))| == 1
  {
    var c2 := c.(job := Some("Writer"));
    var crew := [c, c2];
    assert crew[..1] == [c];
    assert [c][..0] == [];
    assert GroupingOf([]) == map[];
    var g1 := GroupingOf([c]);
    assert g1 == AddCredit(GroupingOf([]), c);
    assert g1 == map["Directing" := map[c.id := NewEntry(c)]];
    var g := GroupingOf(crew);
    assert g == AddCredit(g1, c2);
    var people := g1["Directing"];
    assert Department(c2) == "Directing" && c2.id in people;
    assert people[c2.id := UpdateEntry(people[c2.id], c2)] == map[c.id := UpdateEntry(NewEntry(c), c2)];
    assert g == map["Directing" := map[c.id := UpdateEntry(NewEntry(c), c2)]];
    assert EntryKeys(g) == {("Directing", c.id)};
  }

  // ----- The panel -----

  /** `Object.keys(groupedCrew).sort()`: the departments in code unit order. */
  function DepartmentNames(crew: seq<Credit>): seq<string> {
    Sorting.SortBy(Collections.Dedup(Departments(crew)), Sorting.CodeUnitCompare)
  }

  /** The ids of the credits in `dept`, in input order. */
  function IdsInDept(crew: seq<Credit>, dept: string): seq<nat> {
    if crew == [] then []
    else
      var last := crew[|crew| - 1];
      IdsInDept(crew[..|crew| - 1], dept) + if Department(last) == dept then [last.id] else []
  }

  /** The ids of a department's entries in the order `Object.values` lists number keys: ascending. */
  function PeopleIds(crew: seq<Credit>, dept: string): seq<nat> {
    Sorting.SortBy(Collections.Dedup(IdsInDept(crew, dept)), Sorting.IdOrder)
  }

  /** The departments are listed once each, in code unit order, and they are the grouping's. */
  lemma DepartmentsListed(crew: seq<Credit>)
    ensures var names := DepartmentNames(crew);
      && Collections.NoDup(names)
      && (forall i, j :: 0 <= i < j < |names| ==> Sorting.CodeUnitCompare(names[i], names[j]) < 0)
      && (forall dept :: dept in names <==> dept in GroupingOf(crew))
  {
    var keys := Collections.Dedup(Departments(crew));
    var names := DepartmentNames(crew);
    Collections.DedupNoDup(Departments(crew));
    Collections.NoDupPermutation(keys, names);
    Sorting.CodeUnitConsistent(keys);
    Sorting.SortBySorted(keys, Sorting.CodeUnitCompare);
    forall i, j | 0 <= i < j < |names| ensures Sorting.CodeUnitCompare(names[i], names[j]) < 0 {
      assert names[i] != names[j];
    }
    forall dept ensures dept in names <==> dept in GroupingOf(crew) {
      Sorting.SortByMembers(keys, Sorting.CodeUnitCompare, dept);
      Collections.DedupContains(Departments(crew), dept);
      DepartmentDomain(crew, dept);
    }
  }

  lemma {:induction false} IdsInDeptMembers(crew: seq<Credit>, dept: string, id: nat)
    ensures id in IdsInDept(crew, dept) <==> CreditsOf(crew, dept, id) != []
  {
    if crew != [] {
      IdsInDeptMembers(crew[..|crew| - 1], dept, id);
    }
  }

  /** Inside a department the entries are listed once each, by ascending id. */
  lemma PeopleListed(crew: seq<Credit>, dept: string)
    requires dept in GroupingOf(crew)
    ensures var ids := PeopleIds(crew, dept);
      && (forall i, j :: 0 <= i < j < |ids| ==> ids[i] < ids[j])
      && (forall id :: id in ids <==> id in GroupingOf(crew)[dept])
  {
    var seen := Collections.Dedup(IdsInDept(crew, dept));
    var ids := PeopleIds(crew, dept);
    Collections.DedupNoDup(IdsInDept(crew, dept));
    Collections.NoDupPermutation(seen, ids);
    Sorting.SortBySorted(seen, Sorting.IdOrder);
    forall i, j | 0 <= i < j < |ids| ensures ids[i] < ids[j] {
      assert ids[i] != ids[j];
      assert Sorting.IdOrder(ids[i], ids[j]) <= 0;
    }
    forall id ensures id in ids <==> id in GroupingOf(crew)[dept] {
      Sorting.SortByMembers(seen, Sorting.IdOrder, id);
      Collections.DedupContains(IdsInDept(crew, dept), id);
      IdsInDeptMembers(crew, dept, id);
      EntryIsSummary(crew, dept, id);
    }
  }
}
