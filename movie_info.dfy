/**
 * The principal crew of the movie header. It is built like the movie page's grouped crew (the
 * same important jobs, the same grouping by person id, the same two sorts), but its entries
 * keep only the name and the jobs. The header therefore lists exactly the page's people, in
 * the page's order, with the same jobs.
 */
module MovieInfo {
  import opened Wrappers
  import Collections
  import Sorting
  import MoviePage

  /** One turn of the header's `reduce`: the page's turn, on entries without an id. */
  function AddNamed(acc: map<nat, MoviePage.NamedJobs>, c: MoviePage.CrewMember): map<nat, MoviePage.NamedJobs> {
    if !MoviePage.Kept(c) then acc
    else
      var e := if c.id in acc then acc[c.id] else MoviePage.NamedJobs(c.name, []);
      acc[c.id := if c.job.value in e.jobs then e else e.(jobs := e.jobs + [c.job.value])]
  }

  /** The header's record after the credits `crew`. */
  function NamedAccOf(crew: seq<MoviePage.CrewMember>): map<nat, MoviePage.NamedJobs> {
    if crew == [] then map[] else AddNamed(NamedAccOf(crew[..|crew| - 1]), crew[|crew| - 1])
  }

  /** The page's record with the ids dropped from its entries. */
  function Project(acc: map<nat, MoviePage.GroupedCrew>): (r: map<nat, MoviePage.NamedJobs>)
    ensures r.Keys == acc.Keys
  {
    map id | id in acc :: MoviePage.Named(acc[id])
  }

  /** `person.jobs.sort(...)` on a header entry. */
  function SortNamedJobs(p: MoviePage.NamedJobs): MoviePage.NamedJobs {
    p.(jobs := Sorting.SortBy(p.jobs, MoviePage.JobOrder))
  }

  /** The header's turn keeps step with the page's turn. */
  lemma ProjectAdd(acc: map<nat, MoviePage.GroupedCrew>, c: MoviePage.CrewMember)
    ensures Project(MoviePage.AddMember(acc, c)) == AddNamed(Project(acc), c)
  {
  }

  /** The header's record is the page's record without the ids. */
  lemma {:induction false} NamedAccProject(crew: seq<MoviePage.CrewMember>)
    ensures NamedAccOf(crew) == Project(MoviePage.AccOf(crew))
  {
    if crew != [] {
      NamedAccProject(crew[..|crew| - 1]);
      ProjectAdd(MoviePage.AccOf(crew[..|crew| - 1]), crew[|crew| - 1]);
    }
  }

  /** `Object.values` of the header's record lists the page's entries without their ids. */
  lemma {:induction false} ValuesAtProject(acc: map<nat, MoviePage.GroupedCrew>, ids: seq<nat>)
    ensures MoviePage.ValuesAt(Project(acc), ids) == Collections.Map(MoviePage.ValuesAt(acc, ids), MoviePage.Named)
  {
    if ids != [] {
      ValuesAtProject(acc, ids[1..]);
      var rest := MoviePage.ValuesAt(acc, ids[1..]);
      if ids[0] in acc {
        var m := Collections.Map([acc[ids[0]]] + rest, MoviePage.Named);
        assert m == [MoviePage.Named(acc[ids[0]])] + Collections.Map(rest, MoviePage.Named);
      } else {
        assert [] + rest == rest;
      }
    }
  }

  /** The comparator of people sees the same thing with and without the ids. */
  lemma NamedOrderAgrees(localeCompare: (string, string) -> int)
    ensures forall a, b ::
      MoviePage.NamedOrder(localeCompare)(MoviePage.Named(a), MoviePage.Named(b)) == MoviePage.PersonOrder(localeCompare)(a, b)
  {
  }

  /** The header's `reduce`: the record of entries, and its keys in the order they were added. */
  method CollectImportantCrew(crew: seq<MoviePage.CrewMember>)
    returns (acc: map<nat, MoviePage.NamedJobs>, order: seq<nat>)
    ensures acc == Project(MoviePage.AccOf(crew))
    ensures order == Collections.Dedup(MoviePage.KeptIds(crew))
  {
    acc := map[];
    order := [];
    for i := 0 to |crew|
      invariant acc == NamedAccOf(crew[..i])
      invariant order == Collections.Dedup(MoviePage.KeptIds(crew[..i]))
    {
      MoviePage.AccSnoc(crew, i);
      MoviePage.AccKeys(crew[..i]);
      NamedAccProject(crew[..i]);
      assert crew[..i + 1][..i] == crew[..i];
      acc, order := AddToRecord(acc, order, crew[i]);
    }
    assert crew[..|crew|] == crew;
    NamedAccProject(crew);
  }

  /** One turn of the header's `reduce`, on entries without an id. */
  method AddToRecord(acc: map<nat, MoviePage.NamedJobs>, order: seq<nat>, person: MoviePage.CrewMember)
    returns (acc': map<nat, MoviePage.NamedJobs>, order': seq<nat>)
    requires person.id in acc <==> person.id in order
    ensures acc' == AddNamed(acc, person)
    ensures order' == if MoviePage.Kept(person) && person.id !in order then order + [person.id] else order
  {
    acc', order' := acc, order;
    if MoviePage.Kept(person) {
      var job := person.job.value;
      if person.id !in acc' {
        acc' := acc'[person.id := MoviePage.NamedJobs(person.name, [])];
        order' := order' + [person.id];
      }
      if job !in acc'[person.id].jobs {
        acc' := acc'[person.id := acc'[person.id].(jobs := acc'[person.id].jobs + [job])];
      }
    }
  }

  /**
   * The header's grouped crew: the `reduce` over the credits, `Object.values`, the in-place sort
   * of every person's jobs and the in-place sort of the people. It is the movie page's grouped
   * crew without the ids.
   */
  method GroupImportantCrew(crew: seq<MoviePage.CrewMember>, localeCompare: (string, string) -> int)
    returns (groupedCrew: seq<MoviePage.NamedJobs>)
    ensures groupedCrew == Collections.Map(MoviePage.GroupedCrewOf(crew, localeCompare), MoviePage.Named)
  {
    var acc, order := CollectImportantCrew(crew);
    ghost var full := MoviePage.AccOf(crew);
    MoviePage.AccKeys(crew);
    var ids := Sorting.SortBy(order, Sorting.IdOrder);
    assert ids == MoviePage.SortedIds(crew);
    ghost var raw := MoviePage.ValuesAt(full, ids);
    groupedCrew := MoviePage.ValuesAt(acc, ids);
    ValuesAtProject(full, ids);
    ghost var values := groupedCrew;
    for k := 0 to |groupedCrew|
      invariant |groupedCrew| == |values|
      invariant forall j :: 0 <= j < k ==> groupedCrew[j] == SortNamedJobs(values[j])
      invariant forall j :: k <= j < |values| ==> groupedCrew[j] == values[j]
    {
      var person := groupedCrew[k];
      groupedCrew := groupedCrew[k := person.(jobs := Sorting.SortBy(person.jobs, MoviePage.JobOrder))];
    }
    ghost var vs := MoviePage.ValuesOf(crew);
    assert vs == Collections.Map(raw, MoviePage.SortJobs);
    assert groupedCrew == Collections.Map(vs, MoviePage.Named);
    NamedOrderAgrees(localeCompare);
    Sorting.SortByMap(vs, MoviePage.PersonOrder(localeCompare), MoviePage.Named, MoviePage.NamedOrder(localeCompare));
    groupedCrew := Sorting.SortBy(groupedCrew, MoviePage.NamedOrder(localeCompare));
  }
}
