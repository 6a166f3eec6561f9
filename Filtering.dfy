/** `filterRows`: does a catalog entry match the free-text filter? */
module Filtering {
  import opened Catalog
  import opened Strings

  /** `row[key]` for every name of the column table, in its order
      (`''`, `title`, `appName`, `version`). */
  function KeyedValues(row: Entry): (vs: seq<Option<string>>)
    ensures vs == [None, row.title, row.appName, row.version]
  {
    seq(4, i requires 0 <= i < 4 => Field(row, IndexToKey(i)))
  }

  /** `[...acc, curr.title, curr.id]` folded over `sub_apps`. */
  function SubAppValues(apps: seq<SubApp>): (vs: seq<Option<string>>)
    ensures |vs| == 2 * |apps|
    ensures forall i :: 0 <= i < |apps| ==> vs[2 * i] == apps[i].title && vs[2 * i + 1] == apps[i].id
  {
    if apps == [] then [] else [apps[0].title, apps[0].id] + SubAppValues(apps[1..])
  }

  /** `row.frontend?.title` */
  function FrontTitle(row: Entry): Option<string>
  {
    if row.frontend.Some? then row.frontend.value.title else None
  }

  /** `row.frontend?.paths || []` */
  function FrontPaths(row: Entry): seq<Option<string>>
  {
    if row.frontend.Some? && row.frontend.value.paths.Some? then row.frontend.value.paths.value else []
  }

  /** `row.frontend?.sub_apps`, or no sub-apps at all */
  function FrontApps(row: Entry): seq<SubApp>
  {
    if row.frontend.Some? && row.frontend.value.subApps.Some? then row.frontend.value.subApps.value else []
  }

  /** The second list of values before falsy ones are dropped:
      `frontend.title`, the `frontend.paths`, the `sub_apps` titles and ids,
      and `api.apiName`. */
  function OtherValues(row: Entry): (vs: seq<Option<string>>)
    ensures |vs| == 2 + |FrontPaths(row)| + 2 * |FrontApps(row)|
    ensures vs[0] == FrontTitle(row)
    ensures forall i :: 0 <= i < |FrontPaths(row)| ==> vs[1 + i] == FrontPaths(row)[i]
    ensures forall j :: 0 <= j < |FrontApps(row)| ==>
      vs[1 + |FrontPaths(row)| + 2 * j] == FrontApps(row)[j].title && vs[2 + |FrontPaths(row)| + 2 * j] == FrontApps(row)[j].id
    ensures vs[|vs| - 1] == row.api.apiName
  {
    [FrontTitle(row)] + FrontPaths(row) + SubAppValues(FrontApps(row)) + [row.api.apiName]
  }

  /** `.filter(Boolean)`: keeps exactly the truthy values, in order (see
      `CompactAppend`). */
  function Compact(vs: seq<Option<string>>): (r: seq<string>)
    ensures |r| <= |vs|
    ensures forall s :: s in r <==> Some(s) in vs && s != ""
  {
    if vs == [] then []
    else if Truthy(vs[0]) then [vs[0].value] + Compact(vs[1..])
    else Compact(vs[1..])
  }

  /** Filtering works piecewise, so the kept values stay in their original order. */
  lemma {:induction false} CompactAppend(xs: seq<Option<string>>, ys: seq<Option<string>>)
    ensures Compact(xs + ys) == Compact(xs) + Compact(ys)
    decreases |xs|
  {
    if xs != [] {
      assert (xs + ys)[1..] == xs[1..] + ys;
      CompactAppend(xs[1..], ys);
    } else {
      assert xs + ys == ys;
    }
  }

  /** The case-insensitive substring test: `value.toLocaleLowerCase().indexOf(filter.toLocaleLowerCase()) !== -1`. */
  predicate Matches(value: string, filter: string)
  {
    IndexOf(Lower(value), Lower(filter)) != -1
  }

  /** `indexToKey.some(key => row[key] && matches)`. */
  function SomeTruthyMatches(vs: seq<Option<string>>, filter: string): (b: bool)
    ensures b <==> exists i :: 0 <= i < |vs| && Truthy(vs[i]) && Matches(vs[i].value, filter)
  {
    if vs == [] then false
    else (Truthy(vs[0]) && Matches(vs[0].value, filter)) || SomeTruthyMatches(vs[1..], filter)
  }

  /** `values.some(value => matches)`. */
  function SomeMatches(vs: seq<string>, filter: string): (b: bool)
    ensures b <==> exists i :: 0 <= i < |vs| && Matches(vs[i], filter)
  {
    if vs == [] then false
    else Matches(vs[0], filter) || SomeMatches(vs[1..], filter)
  }

  /** Every value a filter can match: the truthy ones among both lists. */
  ghost function Candidates(row: Entry): set<string>
  {
    set v | v in KeyedValues(row) + OtherValues(row) && Truthy(v) :: v.value
  }

  /** `filterRows(row, filter)`: true exactly when the lower-cased filter occurs
      in the lower-cased form of some non-empty candidate value. */
  function FilterRows(row: Entry, filter: string): (b: bool)
    ensures b <==> exists c :: c in Candidates(row) && Occurs(Lower(filter), Lower(c))
  {
    CandidateMatchSound(row, filter);
    CandidateMatchComplete(row, filter);
    SomeTruthyMatches(KeyedValues(row), filter) || SomeMatches(Compact(OtherValues(row)), filter)
  }

  lemma CandidateMatchSound(row: Entry, filter: string)
    ensures SomeTruthyMatches(KeyedValues(row), filter) || SomeMatches(Compact(OtherValues(row)), filter) ==>
            exists c :: c in Candidates(row) && Occurs(Lower(filter), Lower(c))
  {
    if SomeTruthyMatches(KeyedValues(row), filter) {
      var i :| 0 <= i < 4 && Truthy(KeyedValues(row)[i]) && Matches(KeyedValues(row)[i].value, filter);
      InCandidates(row, i);
    } else if SomeMatches(Compact(OtherValues(row)), filter) {
      var kept := Compact(OtherValues(row));
      var i :| 0 <= i < |kept| && Matches(kept[i], filter);
      assert Some(kept[i]) in OtherValues(row);
      var j :| 0 <= j < |OtherValues(row)| && OtherValues(row)[j] == Some(kept[i]);
      InCandidates(row, 4 + j);
    }
  }

  /** Every truthy value in either list is a candidate. */
  lemma InCandidates(row: Entry, k: int)
    requires 0 <= k < |KeyedValues(row) + OtherValues(row)| && Truthy((KeyedValues(row) + OtherValues(row))[k])
    ensures (KeyedValues(row) + OtherValues(row))[k].value in Candidates(row)
  {
  }

  lemma CandidateMatchComplete(row: Entry, filter: string)
    ensures (exists c :: c in Candidates(row) && Occurs(Lower(filter), Lower(c))) ==>
            SomeTruthyMatches(KeyedValues(row), filter) || SomeMatches(Compact(OtherValues(row)), filter)
  {
    if c :| c in Candidates(row) && Occurs(Lower(filter), Lower(c)) {
      var v :| v in KeyedValues(row) + OtherValues(row) && Truthy(v) && v.value == c;
      if v in KeyedValues(row) {
        var i :| 0 <= i < 4 && KeyedValues(row)[i] == v;
        assert Truthy(KeyedValues(row)[i]) && Matches(KeyedValues(row)[i].value, filter);
      } else {
        assert v in OtherValues(row);
        assert c in Compact(OtherValues(row));
        var i :| 0 <= i < |Compact(OtherValues(row))| && Compact(OtherValues(row))[i] == c;
        assert Matches(Compact(OtherValues(row))[i], filter);
      }
    }
  }

  /** Filtering ignores the case the filter is typed in. */
  lemma FilterIgnoresCase(row: Entry, filter: string)
    ensures FilterRows(row, Upper(filter)) == FilterRows(row, filter)
    ensures FilterRows(row, Lower(filter)) == FilterRows(row, filter)
  {
    LowerOfUpper(filter);
  }

  /** The empty filter matches exactly the rows with at least one non-empty candidate. */
  lemma EmptyFilterMatchesAnyCandidate(row: Entry)
    ensures FilterRows(row, "") <==> Candidates(row) != {}
  {
    if c :| c in Candidates(row) {
      assert OccursAt(Lower(""), Lower(c), 0);
    }
  }

  /** An empty title and a missing title are the same to the filter: falsy
      values never take part in matching. */
  lemma EmptyTitleIsMissingTitle(row: Entry, filter: string)
    ensures FilterRows(row.(title := Some("")), filter) == FilterRows(row.(title := None), filter)
  {
    var a, b := row.(title := Some("")), row.(title := None);
    assert Candidates(a) == Candidates(b) by {
      forall c ensures c in Candidates(a) <==> c in Candidates(b) {
        if c in Candidates(a) {
          var v :| v in KeyedValues(a) + OtherValues(a) && Truthy(v) && v.value == c;
          assert v in KeyedValues(b) + OtherValues(b);
        }
        if c in Candidates(b) {
          var v :| v in KeyedValues(b) + OtherValues(b) && Truthy(v) && v.value == c;
          assert v in KeyedValues(a) + OtherValues(a);
        }
      }
    }
  }
}
