/**
 * `getMediaTabsForPanel`: the tabs of the media panel. A list that starts with a video gets
 * the fixed video tabs with a count each; otherwise the items are images, grouped by the name
 * of their language (or a fallback type) in order of first appearance.
 */
module MediaTabsPanel {
  import opened Wrappers
  import JsText
  import Collections

  /**
   * A video or an image as the panel sees it: `videoType` is present exactly when the item
   * has a `type` property (a video); `hasLanguageField` says whether it has an `iso_639_1`
   * property, and `language` is that property's value, possibly missing.
   */
  datatype MediaItem = MediaItem(videoType: Option<string>, hasLanguageField: bool, language: Option<string>)

  datatype MediaType = Movie | Tv

  function MediaTypeName(t: MediaType): string {
    match t
    case Movie => "movie"
    case Tv => "tv"
  }

  /** A tab of the panel: its name, how many items it holds, and where it links to. */
  datatype Tab = Tab(tabType: string, count: nat, href: string)

  const MovieVideoTypes: seq<string> :=
    ["Trailers", "Teasers", "Clips", "Behind the Scenes", "Bloopers", "Featurettes"]
  const TvVideoTypes: seq<string> := MovieVideoTypes + ["Opening Credits"]

  /**
   * `normalizeTabName`: the video type a tab counts. Two names are kept as they are; every
   * other name loses its last character (the plural `s`), and the empty name stays empty.
   */
  function NormalizeTabName(tab: string): (r: string)
    ensures tab == "Behind the Scenes" || tab == "Opening Credits" ==> r == tab
    ensures tab != "Behind the Scenes" && tab != "Opening Credits" && tab != "" ==>
      r == tab[..|tab| - 1]
    ensures tab == "" ==> r == ""
  {
    if tab == "Behind the Scenes" || tab == "Opening Credits" then tab
    else JsText.Slice(tab, 0, -1)
  }

  /** `/${mediaType}/${mediaId}/${basePath}?active_nav_item=${encodeURIComponent(type)}`. */
  function Href(mediaType: MediaType, mediaId: int, basePath: string, tabType: string, encode: string -> string): string {
    "/" + MediaTypeName(mediaType) + "/" + JsText.IntToString(mediaId) + "/" + basePath
      + "?active_nav_item=" + encode(tabType)
  }

  // ---------------------------------------------------------------------------------------
  // Video tabs

  /** `videos.filter(v => v.type === name).length`. */
  function CountOfType(items: seq<MediaItem>, name: string): nat {
    if items == [] then 0
    else (if items[0].videoType == Some(name) then 1 else 0) + CountOfType(items[1..], name)
  }

  function VideoTypeNames(mediaType: MediaType): seq<string> {
    if mediaType == Tv then TvVideoTypes else MovieVideoTypes
  }

  /** One tab per type, in the fixed order, each counting the videos of its normalized type. */
  function VideoTabsFor(types: seq<string>, items: seq<MediaItem>, mediaType: MediaType, mediaId: int,
                        basePath: string, encode: string -> string): (r: seq<Tab>)
    ensures |r| == |types|
    ensures forall i :: 0 <= i < |r| ==>
      (r[i].tabType == types[i]
       && r[i].count == CountOfType(items, NormalizeTabName(types[i]))
       && r[i].href == Href(mediaType, mediaId, basePath, types[i], encode))
  {
    if types == [] then []
    else
      var t := types[0];
      [Tab(t, CountOfType(items, NormalizeTabName(t)), Href(mediaType, mediaId, basePath, t, encode))]
        + VideoTabsFor(types[1..], items, mediaType, mediaId, basePath, encode)
  }

  // ---------------------------------------------------------------------------------------
  // Image tabs

  /**
   * `getLanguageName` (src/utils/lang.ts): `Unknown` for a missing or empty code; otherwise
   * what `Intl.DisplayNames` answers, which `displayName` stands for and may be missing.
   */
  function LanguageName(code: Option<string>, displayName: string -> Option<string>): (r: Option<string>)
    ensures !JsText.Truthy(code) ==> r == Some("Unknown")
  {
    if !JsText.Truthy(code) then Some("Unknown") else displayName(code.value)
  }

  /** What the grouping of images depends on besides the items. */
  datatype KeyRule = KeyRule(displayName: string -> Option<string>, defaultType: Option<string>)

  /**
   * The group of an image: the name of its language, or `No Language` when that is missing or
   * empty, if the item has the language property; otherwise `defaultType ?? 'Other'`.
   */
  function ImageKey(item: MediaItem, rule: KeyRule): (k: string)
    ensures item.hasLanguageField ==>
      k == JsText.OrElse(LanguageName(item.language, rule.displayName), "No Language")
    ensures !item.hasLanguageField ==> k == rule.defaultType.GetOr("Other")
  {
    if item.hasLanguageField then JsText.OrElse(LanguageName(item.language, rule.displayName), "No Language")
    else rule.defaultType.GetOr("Other")
  }

  /** The group of every item, in order. */
  function ImageKeys(items: seq<MediaItem>, rule: KeyRule): (r: seq<string>)
    ensures |r| == |items|
    ensures forall i :: 0 <= i < |items| ==> r[i] == ImageKey(items[i], rule)
  {
    if items == [] then []
    else
      var init := items[..|items| - 1];
      assert forall i :: 0 <= i < |init| ==> init[i] == items[i];
      ImageKeys(init, rule) + [ImageKey(items[|items| - 1], rule)]
  }

  /** The items of group `k`, in input order. */
  function Group(items: seq<MediaItem>, rule: KeyRule, k: string): seq<MediaItem> {
    if items == [] then []
    else
      var last := items[|items| - 1];
      Group(items[..|items| - 1], rule, k) + (if ImageKey(last, rule) == k then [last] else [])
  }

  /** A group holds as many items as there are items with its key. */
  lemma {:induction false} GroupSize(items: seq<MediaItem>, rule: KeyRule, k: string)
    ensures |Group(items, rule, k)| == multiset(ImageKeys(items, rule))[k]
  {
    if items != [] {
      var init := items[..|items| - 1];
      GroupSize(init, rule, k);
      assert ImageKeys(items, rule) == ImageKeys(init, rule) + [ImageKey(items[|items| - 1], rule)];
    }
  }

  /** Every item of a group has the group's key. */
  lemma {:induction false} GroupMembers(items: seq<MediaItem>, rule: KeyRule, k: string)
    ensures forall i :: 0 <= i < |Group(items, rule, k)| ==> ImageKey(Group(items, rule, k)[i], rule) == k
  {
    if items != [] {
      GroupMembers(items[..|items| - 1], rule, k);
    }
  }

  /** One more item adds its key at the end of the keys. */
  lemma KeysSnoc(prefix: seq<MediaItem>, x: MediaItem, rule: KeyRule)
    ensures ImageKeys(prefix + [x], rule) == ImageKeys(prefix, rule) + [ImageKey(x, rule)]
  {
    assert (prefix + [x])[..|prefix|] == prefix;
  }

  /** One more item joins the end of its own group and leaves every other group alone. */
  lemma GroupSnoc(prefix: seq<MediaItem>, x: MediaItem, rule: KeyRule, k: string)
    ensures Group(prefix + [x], rule, k) ==
      Group(prefix, rule, k) + (if ImageKey(x, rule) == k then [x] else [])
  {
    assert (prefix + [x])[..|prefix|] == prefix;
  }

  /** After the items `prefix`: the keys seen so far, and the group of each. */
  ghost predicate Grouped(prefix: seq<MediaItem>, rule: KeyRule,
                          keys: seq<string>, groups: map<string, seq<MediaItem>>)
  {
    && keys == Collections.Dedup(ImageKeys(prefix, rule))
    && (forall k :: k in groups <==> k in keys)
    && (forall k :: k in groups ==> groups[k] == Group(prefix, rule, k))
  }

  /** The keys after one more item: unchanged when its key was seen, one longer otherwise. */
  lemma GroupStepKeys(prefix: seq<MediaItem>, x: MediaItem, rule: KeyRule, keys: seq<string>)
    requires keys == Collections.Dedup(ImageKeys(prefix, rule))
    ensures var key := ImageKey(x, rule);
      Collections.Dedup(ImageKeys(prefix + [x], rule)) == if key in keys then keys else keys + [key]
  {
    KeysSnoc(prefix, x, rule);
    Collections.DedupSnoc(ImageKeys(prefix, rule), ImageKey(x, rule));
  }

  /** A key not seen yet has an empty group. */
  lemma UnseenGroup(prefix: seq<MediaItem>, rule: KeyRule, key: string)
    requires key !in Collections.Dedup(ImageKeys(prefix, rule))
    ensures Group(prefix, rule, key) == []
  {
    Collections.DedupContains(ImageKeys(prefix, rule), key);
    assert multiset(ImageKeys(prefix, rule))[key] == 0;
    GroupSize(prefix, rule, key);
  }

  /** The groups after one more item. */
  lemma GroupStepGroups(prefix: seq<MediaItem>, x: MediaItem, rule: KeyRule,
                        keys: seq<string>, groups: map<string, seq<MediaItem>>)
    requires Grouped(prefix, rule, keys, groups)
    ensures var groups' := PushItem(groups, x, rule);
      forall k :: k in groups' ==> groups'[k] == Group(prefix + [x], rule, k)
  {
    var key := ImageKey(x, rule);
    if key !in groups {
      UnseenGroup(prefix, rule, key);
    }
    var groups' := PushItem(groups, x, rule);
    forall k | k in groups' ensures groups'[k] == Group(prefix + [x], rule, k) {
      GroupSnoc(prefix, x, rule, k);
    }
  }

  /** The keys of the groups after one more item: those before, and the item's key appended when new. */
  lemma GroupStepDomain(keys: seq<string>, groups: map<string, seq<MediaItem>>, x: MediaItem, rule: KeyRule)
    requires forall k :: k in groups <==> k in keys
    ensures var key := ImageKey(x, rule);
      forall k :: k in PushItem(groups, x, rule) <==> k in (if key in groups then keys else keys + [key])
  {
  }

  lemma GroupedEmpty(rule: KeyRule)
    ensures Grouped([], rule, [], map[])
  {
    assert ImageKeys([], rule) == [];
  }

  /** One turn of the `reduce`: the item pushed onto its key's group, created empty when missing. */
  function PushItem(acc: map<string, seq<MediaItem>>, item: MediaItem, rule: KeyRule): map<string, seq<MediaItem>> {
    var key := ImageKey(item, rule);
    acc[key := (if key in acc then acc[key] else []) + [item]]
  }

  /** One turn of the `reduce` keeps the groups right. */
  lemma GroupStep(prefix: seq<MediaItem>, x: MediaItem, rule: KeyRule,
                  keys: seq<string>, groups: map<string, seq<MediaItem>>)
    requires Grouped(prefix, rule, keys, groups)
    ensures var key := ImageKey(x, rule);
      Grouped(prefix + [x], rule, if key in groups then keys else keys + [key], PushItem(groups, x, rule))
  {
    GroupStepKeys(prefix, x, rule, keys);
    GroupStepGroups(prefix, x, rule, keys, groups);
    GroupStepDomain(keys, groups, x, rule);
  }

  /**
   * The `reduce` of the image branch: for each item, take its key, start an empty group the
   * first time the key is seen, and push the item onto the key's group. `keys` records the
   * order in which keys were first seen, which is the order `Object.entries` lists them in.
   */
  method GroupImages(items: seq<MediaItem>, rule: KeyRule)
    returns (keys: seq<string>, groups: map<string, seq<MediaItem>>)
    ensures keys == Collections.Dedup(ImageKeys(items, rule))
    ensures forall k :: k in groups <==> k in keys
    ensures forall k :: k in groups ==> groups[k] == Group(items, rule, k)
  {
    keys := [];
    groups := map[];
    GroupedEmpty(rule);
    assert items[..0] == [];
    for i := 0 to |items|
      invariant Grouped(items[..i], rule, keys, groups)
    {
      var item := items[i];
      GroupStep(items[..i], item, rule, keys, groups);
      Collections.TakeSnoc(items, i);
      keys, groups := PushImage(keys, groups, item, rule);
    }
    assert items[..|items|] == items;
  }

  /**
   * One turn of the `reduce`: the item is pushed onto its key's group, which starts empty the
   * first time the key is seen, when the key also joins the keys.
   */
  method PushImage(keys: seq<string>, groups: map<string, seq<MediaItem>>, item: MediaItem, rule: KeyRule)
    returns (keys': seq<string>, groups': map<string, seq<MediaItem>>)
    ensures groups' == PushItem(groups, item, rule)
    ensures var key := ImageKey(item, rule); keys' == if key in groups then keys else keys + [key]
  {
    var key := ImageKey(item, rule);
    // `acc[key]`, or the empty group the first time the key is seen
    var current := if key in groups then groups[key] else [];
    keys' := if key in groups then keys else keys + [key];
    groups' := groups[key := current + [item]];
  }

  /** One tab per key, counting its group. */
  function ImageTabsFor(keys: seq<string>, items: seq<MediaItem>, rule: KeyRule, mediaType: MediaType,
                        mediaId: int, basePath: string, encode: string -> string): (r: seq<Tab>)
    ensures |r| == |keys|
    ensures forall i :: 0 <= i < |r| ==>
      r[i] == Tab(keys[i], |Group(items, rule, keys[i])|, Href(mediaType, mediaId, basePath, keys[i], encode))
  {
    if keys == [] then []
    else
      var k := keys[0];
      [Tab(k, |Group(items, rule, k)|, Href(mediaType, mediaId, basePath, k, encode))]
        + ImageTabsFor(keys[1..], items, rule, mediaType, mediaId, basePath, encode)
  }

  /** The tabs `getMediaTabsForPanel` returns. */
  function PanelTabs(items: seq<MediaItem>, mediaType: MediaType, mediaId: int, basePath: string,
                     rule: KeyRule, encode: string -> string): seq<Tab> {
    if items == [] then []
    else if items[0].videoType.Some? then
      VideoTabsFor(VideoTypeNames(mediaType), items, mediaType, mediaId, basePath, encode)
    else
      ImageTabsFor(Collections.Dedup(ImageKeys(items, rule)), items, rule, mediaType, mediaId, basePath, encode)
  }

  /**
   * `getMediaTabsForPanel`: no tabs for no items; the first item alone decides between the
   * video tabs and the image groups; every tab links to its own `active_nav_item`.
   */
  method GetMediaTabsForPanel(items: seq<MediaItem>, mediaType: MediaType, mediaId: int, basePath: string,
                              rule: KeyRule, encode: string -> string)
    returns (tabs: seq<Tab>)
    ensures tabs == PanelTabs(items, mediaType, mediaId, basePath, rule, encode)
    ensures items == [] ==> tabs == []
    ensures forall i :: 0 <= i < |tabs| ==> tabs[i].href == Href(mediaType, mediaId, basePath, tabs[i].tabType, encode)
  {
    PanelTabsLinks(items, mediaType, mediaId, basePath, rule, encode);
    if |items| == 0 {
      return [];
    }
    if items[0].videoType.Some? {
      tabs := VideoTabsFor(VideoTypeNames(mediaType), items, mediaType, mediaId, basePath, encode);
      return;
    }
    var keys, groups := GroupImages(items, rule);
    tabs := EntriesToTabs(keys, groups, mediaType, mediaId, basePath, encode);
    EntriesAreImageTabs(keys, groups, items, rule, mediaType, mediaId, basePath, encode);
  }

  /** Reading the counts from the grouped map gives the tabs counted from the items. */
  lemma EntriesAreImageTabs(keys: seq<string>, groups: map<string, seq<MediaItem>>, items: seq<MediaItem>,
                            rule: KeyRule, mediaType: MediaType, mediaId: int, basePath: string, encode: string -> string)
    requires forall k :: k in groups <==> k in keys
    requires forall k :: k in groups ==> groups[k] == Group(items, rule, k)
    ensures EntriesToTabs(keys, groups, mediaType, mediaId, basePath, encode)
      == ImageTabsFor(keys, items, rule, mediaType, mediaId, basePath, encode)
  {
  }

  /** Every tab of the panel links to its own type. */
  lemma PanelTabsLinks(items: seq<MediaItem>, mediaType: MediaType, mediaId: int, basePath: string,
                       rule: KeyRule, encode: string -> string)
    ensures var tabs := PanelTabs(items, mediaType, mediaId, basePath, rule, encode);
      forall i :: 0 <= i < |tabs| ==> tabs[i].href == Href(mediaType, mediaId, basePath, tabs[i].tabType, encode)
  {
  }

  /** `Object.entries(grouped).map(...)`: one tab per key in insertion order, counting its group. */
  function EntriesToTabs(keys: seq<string>, groups: map<string, seq<MediaItem>>, mediaType: MediaType,
                         mediaId: int, basePath: string, encode: string -> string): (r: seq<Tab>)
    requires forall k :: k in keys ==> k in groups
    ensures |r| == |keys|
    ensures forall j :: 0 <= j < |keys| ==>
      r[j] == Tab(keys[j], |groups[keys[j]]|, Href(mediaType, mediaId, basePath, keys[j], encode))
  {
    seq(|keys|, j requires 0 <= j < |keys| =>
      Tab(keys[j], |groups[keys[j]]|, Href(mediaType, mediaId, basePath, keys[j], encode)))
  }

  // ---------------------------------------------------------------------------------------
  // Properties of the tabs

  function TotalCount(tabs: seq<Tab>): nat {
    if tabs == [] then 0 else tabs[0].count + TotalCount(tabs[1..])
  }

  /** The video tabs: the six movie types, plus `Opening Credits` for tv, in that order. */
  lemma VideoTabNames(items: seq<MediaItem>, mediaType: MediaType, mediaId: int, basePath: string,
                      rule: KeyRule, encode: string -> string)
    requires items != [] && items[0].videoType.Some?
    ensures var tabs := PanelTabs(items, mediaType, mediaId, basePath, rule, encode);
      |tabs| == (if mediaType == Tv then 7 else 6)
      && (forall i :: 0 <= i < |tabs| ==> tabs[i].tabType == VideoTypeNames(mediaType)[i])
  {
  }

  /** The normalized names of the video types, which are all different. */
  function NormalizedKeys(types: seq<string>): (r: seq<Option<string>>)
    ensures |r| == |types|
    ensures forall i :: 0 <= i < |types| ==> r[i] == Some(NormalizeTabName(types[i]))
  {
    if types == [] then [] else [Some(NormalizeTabName(types[0]))] + NormalizedKeys(types[1..])
  }

  lemma NormalizedNames()
    ensures NormalizeTabName("Trailers") == "Trailer" && NormalizeTabName("Teasers") == "Teaser"
    ensures NormalizeTabName("Clips") == "Clip" && NormalizeTabName("Bloopers") == "Blooper"
    ensures NormalizeTabName("Featurettes") == "Featurette"
  {
    assert "Trailers"[..7] == "Trailer";
    assert "Teasers"[..6] == "Teaser";
    assert "Clips"[..4] == "Clip";
    assert "Bloopers"[..7] == "Blooper";
    assert "Featurettes"[..10] == "Featurette";
  }

  /** The seven normalized names, written out. */
  const NormalizedTvNames: seq<Option<string>> := [Some("Trailer"), Some("Teaser"), Some("Clip"),
    Some("Behind the Scenes"), Some("Blooper"), Some("Featurette"), Some("Opening Credits")]

  lemma NormalizedTvTypes()
    ensures NormalizedKeys(TvVideoTypes) == NormalizedTvNames
  {
    NormalizedNames();
    var ks := NormalizedKeys(TvVideoTypes);
    assert ks[0] == Some("Trailer") && ks[1] == Some("Teaser") && ks[2] == Some("Clip");
    assert ks[3] == Some("Behind the Scenes") && ks[4] == Some("Blooper");
    assert ks[5] == Some("Featurette") && ks[6] == Some("Opening Credits");
  }

  /** They are all different: no two agree in both length and first letter. */
  lemma NormalizedTvNamesDistinct()
    ensures Collections.NoDup(NormalizedTvNames)
  {
    var tv := NormalizedTvNames;
    var firsts: seq<char> := ['T', 'T', 'C', 'B', 'B', 'F', 'O'];
    var lens: seq<int> := [7, 6, 4, 17, 7, 10, 15];
    forall i | 0 <= i < 7 ensures |tv[i].value| == lens[i] && tv[i].value[0] == firsts[i] {
    }
    forall i, j | 0 <= i < j < 7 ensures tv[i] != tv[j] {
      assert lens[i] != lens[j] || firsts[i] != firsts[j];
    }
  }

  /** The seven normalized names are all different. */
  lemma NormalizedTvDistinct()
    ensures Collections.NoDup(NormalizedKeys(TvVideoTypes))
  {
    NormalizedTvTypes();
    NormalizedTvNamesDistinct();
  }

  /** The seven normalized names are all different, and so are the first six. */
  lemma NormalizedDistinct()
    ensures Collections.NoDup(NormalizedKeys(TvVideoTypes))
    ensures Collections.NoDup(NormalizedKeys(MovieVideoTypes))
  {
    NormalizedTvDistinct();
    var tv := NormalizedKeys(TvVideoTypes);
    var movie := NormalizedKeys(MovieVideoTypes);
    forall i, j | 0 <= i < j < |movie| ensures movie[i] != movie[j] {
      assert movie[i] == Some(NormalizeTabName(MovieVideoTypes[i])) == tv[i];
      assert movie[j] == tv[j];
    }
  }

  /** The video types of the items, in order. */
  function VideoTypesOf(items: seq<MediaItem>): (r: seq<Option<string>>)
    ensures |r| == |items|
  {
    if items == [] then [] else [items[0].videoType] + VideoTypesOf(items[1..])
  }

  lemma {:induction false} CountOfTypeMultiset(items: seq<MediaItem>, name: string)
    ensures CountOfType(items, name) == multiset(VideoTypesOf(items))[Some(name)]
  {
    if items != [] {
      CountOfTypeMultiset(items[1..], name);
      assert VideoTypesOf(items) == [items[0].videoType] + VideoTypesOf(items[1..]);
    }
  }

  lemma {:induction false} VideoTotal(types: seq<string>, items: seq<MediaItem>, mediaType: MediaType,
                                      mediaId: int, basePath: string, encode: string -> string)
    ensures TotalCount(VideoTabsFor(types, items, mediaType, mediaId, basePath, encode))
      == Collections.Multiplicities(NormalizedKeys(types), VideoTypesOf(items))
  {
    if types != [] {
      VideoTotal(types[1..], items, mediaType, mediaId, basePath, encode);
      CountOfTypeMultiset(items, NormalizeTabName(types[0]));
      assert NormalizedKeys(types)[1..] == NormalizedKeys(types[1..]);
    }
  }

  /**
   * Since the normalized names are all different, no video is counted twice: the counts of
   * the video tabs add up to at most the number of items.
   */
  lemma VideoCountsBounded(items: seq<MediaItem>, mediaType: MediaType, mediaId: int, basePath: string,
                           rule: KeyRule, encode: string -> string)
    requires items != [] && items[0].videoType.Some?
    ensures TotalCount(PanelTabs(items, mediaType, mediaId, basePath, rule, encode)) <= |items|
  {
    var types := VideoTypeNames(mediaType);
    NormalizedDistinct();
    VideoTotal(types, items, mediaType, mediaId, basePath, encode);
    Collections.MultiplicitiesBound(NormalizedKeys(types), VideoTypesOf(items));
  }

  lemma {:induction false} ImageTotal(keys: seq<string>, items: seq<MediaItem>, rule: KeyRule, mediaType: MediaType,
                                      mediaId: int, basePath: string, encode: string -> string)
    ensures TotalCount(ImageTabsFor(keys, items, rule, mediaType, mediaId, basePath, encode))
      == Collections.Multiplicities(keys, ImageKeys(items, rule))
  {
    if keys != [] {
      ImageTotal(keys[1..], items, rule, mediaType, mediaId, basePath, encode);
      GroupSize(items, rule, keys[0]);
    }
  }

  /**
   * The image tabs: every item falls in exactly one group, so the counts add up to the number
   * of items and no tab is empty; the tab names are distinct and in order of first appearance.
   */
  lemma ImageTabsPartition(items: seq<MediaItem>, mediaType: MediaType, mediaId: int, basePath: string,
                           rule: KeyRule, encode: string -> string)
    requires items != [] && items[0].videoType.None?
    ensures var tabs := PanelTabs(items, mediaType, mediaId, basePath, rule, encode);
      && TotalCount(tabs) == |items|
      && (forall i :: 0 <= i < |tabs| ==> tabs[i].count >= 1)
      && (forall i, j :: 0 <= i < j < |tabs| ==> tabs[i].tabType != tabs[j].tabType)
      && (forall i :: 0 <= i < |items| ==> exists j :: 0 <= j < |tabs| && tabs[j].tabType == ImageKey(items[i], rule))
  {
    var ks := ImageKeys(items, rule);
    var keys := Collections.Dedup(ks);
    ImageTotal(keys, items, rule, mediaType, mediaId, basePath, encode);
    Collections.DedupNoDup(ks);
    forall i | 0 <= i < |ks| ensures ks[i] in keys {
      Collections.DedupContains(ks, ks[i]);
    }
    Collections.MultiplicitiesBound(keys, ks);
    ImageTabsNonEmpty(items, mediaType, mediaId, basePath, rule, encode);
    ImageTabsCover(items, mediaType, mediaId, basePath, rule, encode);
  }

  lemma ImageTabsNonEmpty(items: seq<MediaItem>, mediaType: MediaType, mediaId: int, basePath: string,
                          rule: KeyRule, encode: string -> string)
    requires items != [] && items[0].videoType.None?
    ensures var tabs := PanelTabs(items, mediaType, mediaId, basePath, rule, encode);
      forall i :: 0 <= i < |tabs| ==> tabs[i].count >= 1
  {
    var ks := ImageKeys(items, rule);
    var keys := Collections.Dedup(ks);
    var tabs := PanelTabs(items, mediaType, mediaId, basePath, rule, encode);
    forall i | 0 <= i < |tabs| ensures tabs[i].count >= 1 {
      GroupSize(items, rule, keys[i]);
      Collections.DedupContains(ks, keys[i]);
    }
  }

  lemma ImageTabsCover(items: seq<MediaItem>, mediaType: MediaType, mediaId: int, basePath: string,
                       rule: KeyRule, encode: string -> string)
    requires items != [] && items[0].videoType.None?
    ensures var tabs := PanelTabs(items, mediaType, mediaId, basePath, rule, encode);
      forall i :: 0 <= i < |items| ==> exists j :: 0 <= j < |tabs| && tabs[j].tabType == ImageKey(items[i], rule)
  {
    var ks := ImageKeys(items, rule);
    var keys := Collections.Dedup(ks);
    var tabs := PanelTabs(items, mediaType, mediaId, basePath, rule, encode);
    forall i | 0 <= i < |items| ensures exists j :: 0 <= j < |tabs| && tabs[j].tabType == ImageKey(items[i], rule) {
      Collections.DedupContains(ks, ks[i]);
      var j :| 0 <= j < |keys| && keys[j] == ks[i];
      assert tabs[j].tabType == keys[j];
    }
  }

  /** The first tab belongs to the first item, and tabs follow the order keys first appear in. */
  lemma ImageTabsOrder(items: seq<MediaItem>, mediaType: MediaType, mediaId: int, basePath: string,
                       rule: KeyRule, encode: string -> string, i: nat, j: nat)
    requires items != [] && items[0].videoType.None?
    requires i < j < |PanelTabs(items, mediaType, mediaId, basePath, rule, encode)|
    ensures var tabs := PanelTabs(items, mediaType, mediaId, basePath, rule, encode);
      var ks := ImageKeys(items, rule);
      tabs[i].tabType in ks && tabs[j].tabType in ks
      && Collections.FirstIndex(ks, tabs[i].tabType) < Collections.FirstIndex(ks, tabs[j].tabType)
  {
    Collections.DedupFirstSeenOrder(ImageKeys(items, rule), i, j);
  }
}
