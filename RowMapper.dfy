/** `rowMapper`: the cells of one table row, as data. A cell that the page
    renders as a link keeps the link target; badge, button and span markup
    is reduced to the values it shows or passes on. */
module RowMapper {
  import opened Catalog
  import opened Strings

  /** The part of a selection record the table reads. */
  datatype Selection = Selection(isSelected: Option<bool>)

  /** A version badge: the version it shows and the path it links to. */
  datatype Badge = Badge(version: string, to: string)

  datatype Cell =
    | /** The name: a link to `to` when present, plain text otherwise; its value is the title. */
      NameCell(to: Option<string>, title: Option<string>)
    | /** A plain-text endpoint (`/api/<name>` or the empty string). */
      EndpointText(text: string)
    | /** An endpoint shown as the entry's URL. */
      EndpointUrl(url: string)
    | /** One badge per version; its value is the versions list itself. */
      VersionsCell(badges: seq<Badge>, versions: Option<seq<string>>)
    | /** The download button, holding the arguments it passes to `downloadFile`. */
      DownloadCell(appName: Option<string>, appVersion: Option<string>, documentUrl: Option<string>)
    | /** The empty-state placeholder spanning `colSpan` columns. */
      EmptyStateCell(colSpan: nat)

  /** One row of the table. `None` stands for a property the row object does
      not carry (or carries as `undefined`). */
  datatype Row = Row(
    selected: Option<bool>,
    cells: seq<Cell>,
    isTreeOpen: Option<bool>,
    subItems: Option<seq<SubEntry>>,
    noDetail: Option<bool>,
    treeParent: Option<nat>)

  /** `versions?.[0]` */
  function FirstVersion(versions: Option<seq<string>>): (v: Option<string>)
    ensures v.Some? <==> versions.Some? && |versions.value| > 0
    ensures v.Some? ==> v.value == versions.value[0]
  {
    if versions.Some? && |versions.value| > 0 then Some(versions.value[0]) else None
  }

  /** The version part of the name link: present whenever there is a versions
      list whose first element is not the literal `v1` (an empty list included,
      whose missing first element renders as the empty string). */
  function VersionSegment(versions: Option<seq<string>>, name: string): string
  {
    if versions.Some? && FirstVersion(versions) != Some("v1")
    then "/" + name + "/" + FirstVersion(versions).GetOr("")
    else ""
  }

  function QuerySegment(url: Option<string>): string
  {
    if Truthy(url) then "?url=" + url.value else ""
  }

  /** The target of the name link: `/<name>`, then the version part, then `?url=<url>`.
      Without versions, or with first version `v1`, only the query follows the
      name; an empty versions list still adds `/<name>/`, since `[]` is truthy
      and its missing first element renders as the empty string. */
  function LinkPath(versions: Option<seq<string>>, url: Option<string>, apiName: Option<string>): (p: string)
    ensures "/" + Interpolate(apiName) <= p
    ensures versions.None? && !Truthy(url) ==> p == "/" + Interpolate(apiName)
    ensures versions.None? || FirstVersion(versions) == Some("v1") ==>
      p == "/" + Interpolate(apiName) + (if Truthy(url) then "?url=" + url.value else "")
    ensures versions == Some([]) ==>
      p == "/" + Interpolate(apiName) + "/" + Interpolate(apiName) + "/" + (if Truthy(url) then "?url=" + url.value else "")
  {
    var name := Interpolate(apiName);
    "/" + name + VersionSegment(versions, name) + QuerySegment(url)
  }

  /** With the default version `v1` and no URL the link is the bare `/<name>`. */
  lemma LinkPathDefaultVersion(versions: seq<string>, url: Option<string>, apiName: string)
    requires |versions| > 0 && versions[0] == "v1" && !Truthy(url)
    ensures LinkPath(Some(versions), url, Some(apiName)) == "/" + apiName
  {
  }

  /** Any other first version appears in the link as `/<name>/<version>`, right
      after the leading `/<name>`, and the URL, when set, ends the link. */
  lemma LinkPathNamedVersion(versions: seq<string>, url: Option<string>, apiName: string)
    requires |versions| > 0 && versions[0] != "v1"
    ensures var path := LinkPath(Some(versions), url, Some(apiName));
            var head := "/" + apiName + "/" + apiName + "/" + versions[0];
            && head <= path
            && Occurs("/" + versions[0], path)
            && (Truthy(url) ==> path == head + "?url=" + url.value)
            && (!Truthy(url) ==> path == head)
  {
    var path := LinkPath(Some(versions), url, Some(apiName));
    var front := "/" + apiName + "/" + apiName;
    var tail := "/" + versions[0];
    NamedVersionLink(versions, url, apiName);
    assert front + ("/" + versions[0]) == front + "/" + versions[0];
    assert path == front + tail + QuerySegment(url);
    assert (front + tail + QuerySegment(url))[|front|..|front| + |tail|] == tail;
    assert OccursAt(tail, path, |front|);
  }

  lemma NamedVersionLink(versions: seq<string>, url: Option<string>, apiName: string)
    requires |versions| > 0 && versions[0] != "v1"
    ensures LinkPath(Some(versions), url, Some(apiName)) == "/" + apiName + "/" + apiName + "/" + versions[0] + QuerySegment(url)
  {
    var name, v := apiName, versions[0];
    assert FirstVersion(Some(versions)) == Some(v);
    assert VersionSegment(Some(versions), name) == "/" + name + "/" + v;
    assert "/" + name + ("/" + name + "/" + v) == "/" + name + ("/" + name + "/") + v;
    assert "/" + name + "/" + (name + "/") == "/" + name + "/" + name + "/";
    assert "/" + name + ("/" + name + "/") == "/" + name + "/" + name + "/";
    assert "/" + name + ("/" + name + "/" + v) == "/" + name + "/" + name + "/" + v;
  }

  /** A truthy URL always ends the link as its `url` query parameter. */
  lemma LinkPathCarriesUrl(versions: Option<seq<string>>, url: Option<string>, apiName: Option<string>)
    requires Truthy(url)
    ensures var path := LinkPath(versions, url, apiName);
            var query := "?url=" + url.value;
            |query| <= |path| && path[|path| - |query|..] == query
  {
    var path := LinkPath(versions, url, apiName);
    var prefix := "/" + Interpolate(apiName) + VersionSegment(versions, Interpolate(apiName));
    assert path == prefix + ("?url=" + url.value);
  }

  /** One badge per version, in order, each linking to `/<name>/<version>`. */
  function Badges(versions: seq<string>, name: string): (b: seq<Badge>)
    ensures |b| == |versions|
    ensures forall i :: 0 <= i < |b| ==> b[i].version == versions[i] && b[i].to == "/" + name + "/" + versions[i]
  {
    if versions == [] then [] else [Badge(versions[0], "/" + name + "/" + versions[0])] + Badges(versions[1..], name)
  }

  /** `selectedRows?.[title]?.isSelected`: the key is the title as a property
      name, so a missing title looks up "undefined". */
  function SelectedFlag(selectedRows: map<string, Selection>, title: Option<string>): (s: Option<bool>)
    ensures Interpolate(title) !in selectedRows ==> s.None?
    ensures Interpolate(title) in selectedRows ==> s == selectedRows[Interpolate(title)].isSelected
  {
    var key := Interpolate(title);
    if key in selectedRows then selectedRows[key].isSelected else None
  }

  /** `rowMapper(title, versions, url, selectedRows, apiName)`: four cells, the
      selection flag read by title, and none of the tree properties. */
  function MapRow(title: Option<string>, versions: Option<seq<string>>, url: Option<string>,
                  selectedRows: map<string, Selection>, apiName: Option<string>): (r: Row)
    ensures |r.cells| == 4
    ensures r.selected == SelectedFlag(selectedRows, title)
    ensures r.isTreeOpen.None? && r.subItems.None? && r.noDetail.None? && r.treeParent.None?
  {
    var name := Interpolate(apiName);
    var nameCell := NameCell(if versions.Some? || Truthy(url) then Some(LinkPath(versions, url, apiName)) else None, title);
    var endpoint := if versions.Some? then EndpointText("/api/" + name)
                    else if Truthy(url) then EndpointUrl(url.value)
                    else EndpointText("");
    var badges := if versions.Some? then Badges(versions.value, name) else [];
    Row(SelectedFlag(selectedRows, title),
        [nameCell, endpoint, VersionsCell(badges, versions), DownloadCell(apiName, FirstVersion(versions), url)],
        None, None, None, None)
  }

  /** What the four cells of a mapped row show. */
  lemma MapRowCells(title: Option<string>, versions: Option<seq<string>>, url: Option<string>,
                    selectedRows: map<string, Selection>, apiName: Option<string>)
    ensures var r := MapRow(title, versions, url, selectedRows, apiName);
      // the name cell links exactly when there are versions or a truthy URL
      && r.cells[0].NameCell? && r.cells[0].title == title
      && (r.cells[0].to.Some? <==> versions.Some? || Truthy(url))
      && (r.cells[0].to.Some? ==> r.cells[0].to.value == LinkPath(versions, url, apiName))
      // the endpoint: `/api/<name>` for versioned entries, else the URL, else empty
      && (versions.Some? ==> r.cells[1] == EndpointText("/api/" + Interpolate(apiName)))
      && (versions.None? && Truthy(url) ==> r.cells[1] == EndpointUrl(url.value))
      && (versions.None? && !Truthy(url) ==> r.cells[1] == EndpointText(""))
      // one badge per version, linking to `/<name>/<version>`
      && r.cells[2].VersionsCell? && r.cells[2].versions == versions
      && (versions.None? ==> r.cells[2].badges == [])
      && (versions.Some? ==> r.cells[2].badges == Badges(versions.value, Interpolate(apiName)))
      // the download button gets the name, the first version and the URL
      && r.cells[3] == DownloadCell(apiName, FirstVersion(versions), url)
  {
  }
}
