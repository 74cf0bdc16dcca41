/**
 * Station selection in the sidebar: every station with a name is offered as
 * "id - name", the id is recovered from the chosen entry by splitting on
 * " - ", and the detail tab shows the first station with that id.
 */
module Selection {
  import opened Wrappers
  import opened Table
  import opened Sequences
  import opened Cleaner

  /** The text between id and name in an option. */
  const SEPARATOR: string := " - "

  // ---------------------------------------------------------------------
  // `str.split(sep)[0]`

  /** `sep` occurs in `s` starting at position `i`. */
  predicate OccursAt(s: string, sep: string, i: nat)
  {
    i + |sep| <= |s| && s[i..i + |sep|] == sep
  }

  /** An occurrence in `s` at `i > 0` is an occurrence in `s[1..]` at `i - 1`. */
  lemma OccursShift(s: string, sep: string)
    requires |s| > 0
    ensures forall i: nat :: 1 <= i ==> (OccursAt(s, sep, i) <==> OccursAt(s[1..], sep, i - 1))
  {
    forall i: nat | 1 <= i
      ensures OccursAt(s, sep, i) <==> OccursAt(s[1..], sep, i - 1)
    {
      if i + |sep| <= |s| {
        var here := s[i..i + |sep|];
        var there := s[1..][i - 1..i - 1 + |sep|];
        assert forall j :: 0 <= j < |here| ==> here[j] == s[i + j] == there[j];
        assert here == there;
      }
    }
  }

  /**
   * `s.split(sep)[0]`: the part of `s` before the first occurrence of `sep`,
   * or all of `s` when `sep` does not occur.
   */
  function FirstPart(s: string, sep: string): (head: string)
    requires |sep| > 0
    ensures head <= s
    ensures forall i: nat :: i < |head| ==> !OccursAt(s, sep, i)
    ensures |head| < |s| ==> OccursAt(s, sep, |head|)
    decreases |s|
  {
    if |s| < |sep| then s
    else if s[..|sep|] == sep then ""
    else
      OccursShift(s, sep);
      [s[0]] + FirstPart(s[1..], sep)
  }

  /** `s` contains no occurrence of `sep` at all. */
  predicate Free(s: string, sep: string)
  {
    forall i: nat :: i < |s| ==> !OccursAt(s, sep, i)
  }

  /** `s` ends with `suffix`. */
  predicate EndsWith(s: string, suffix: string)
  {
    |suffix| <= |s| && s[|s| - |suffix|..] == suffix
  }

  /** An occurrence of `sep` in `a` is one in `a + b`, at the same place. */
  lemma OccursInPrefix(a: string, b: string, sep: string, i: nat)
    requires OccursAt(a, sep, i)
    ensures OccursAt(a + b, sep, i)
  {
    assert (a + b)[i..i + |sep|] == a[i..i + |sep|];
  }

  /** The option "id - name" of an id free of " - " and not ending in " -" splits back to the id. */
  lemma SplitRecoversId(id: string, name: string)
    requires Free(id, SEPARATOR) && !EndsWith(id, " -")
    ensures FirstPart(id + SEPARATOR + name, SEPARATOR) == id
  {
    var s := id + SEPARATOR + name;
    assert s[|id|..|id| + 3] == SEPARATOR;
    forall i: nat | i < |id|
      ensures !OccursAt(s, SEPARATOR, i)
    {
      if i + 3 <= |id| {
        assert s[i..i + 3] == id[i..i + 3];
        assert !OccursAt(id, SEPARATOR, i);
      } else if i + 2 == |id| {
        assert s[i..i + 3][..2] == s[i..i + 2] == id[|id| - 2..];
        assert id[|id| - 2..] != " -";
      } else {
        assert s[i..i + 3][1] == s[i + 1] == ' ';
        assert SEPARATOR[1] == '-';
      }
    }
    var head := FirstPart(s, SEPARATOR);
    assert OccursAt(s, SEPARATOR, |id|);
    assert |head| == |id|;
    assert head == s[..|id|] == id;
  }

  /** For any other id the first " - " of its option starts inside the id. */
  lemma SplitCutsId(id: string, name: string)
    requires !Free(id, SEPARATOR) || EndsWith(id, " -")
    ensures |FirstPart(id + SEPARATOR + name, SEPARATOR)| < |id|
  {
    var s := id + SEPARATOR + name;
    var head := FirstPart(s, SEPARATOR);
    if !Free(id, SEPARATOR) {
      var i: nat :| i < |id| && OccursAt(id, SEPARATOR, i);
      assert s == id + (SEPARATOR + name);
      OccursInPrefix(id, SEPARATOR + name, SEPARATOR, i);
      assert |head| <= i;
    } else {
      assert s[|id| - 2..|id| + 1] == " - ";
      assert OccursAt(s, SEPARATOR, |id| - 2);
      assert |head| <= |id| - 2;
    }
  }

  /**
   * Splitting an option "id - name" on " - " gives back the id exactly when
   * the id contains no " - " and does not end in " -".
   */
  lemma SplitRoundTrip(id: string, name: string)
    ensures FirstPart(id + SEPARATOR + name, SEPARATOR) == id <==> Free(id, SEPARATOR) && !EndsWith(id, " -")
  {
    if Free(id, SEPARATOR) && !EndsWith(id, " -") {
      SplitRecoversId(id, name);
    } else {
      SplitCutsId(id, name);
    }
  }

  /** The id "A -" of station "B" comes back as "A". */
  lemma SplitCutsTrailingDash()
    ensures FirstPart("A -" + SEPARATOR + "B", SEPARATOR) == "A"
  {
    var s := "A -" + SEPARATOR + "B";
    assert s == "A - - B";
    assert s[..3][0] != SEPARATOR[0];
    assert s[1..][..3] == SEPARATOR;
  }

  // ---------------------------------------------------------------------
  // The options of the station select box

  /** A row that is offered: its name is present. */
  predicate HasName(r: Row)
  {
    Get(r, "nama_site", Null) != Null
  }

  /** `site_options`: the stations with a name, in catalog order. */
  function NamedRows(df: Frame): seq<Row>
  {
    Filter(df.rows, HasName)
  }

  /** The name of a row with a present name, when it is text. */
  predicate HasTextName(r: Row)
  {
    r.Keys >= {"nama_site"} && r["nama_site"].Text?
  }

  /** The option of one station: its id, the separator and its name. */
  function Display(r: Row): string
    requires IsStation(r) && HasTextName(r)
  {
    r["id_site"].s + SEPARATOR + r["nama_site"].s
  }

  /**
   * `site_options['display'].tolist()`: one option per named station, in
   * order; `None` when some present name is not text, where the string
   * concatenation raises a TypeError.
   */
  function SiteOptions(df: Frame): (options: Option<seq<string>>)
    requires forall r :: r in df.rows ==> IsStation(r)
    ensures options.Some? <==> forall i :: 0 <= i < |NamedRows(df)| ==> HasTextName(NamedRows(df)[i])
    ensures options.Some? ==> |options.value| == |NamedRows(df)|
    ensures options.Some? ==> forall i :: 0 <= i < |options.value| ==>
      IsStation(NamedRows(df)[i]) && HasTextName(NamedRows(df)[i]) &&
      options.value[i] == NamedRows(df)[i]["id_site"].s + SEPARATOR + NamedRows(df)[i]["nama_site"].s
  {
    var named := NamedRows(df);
    FilterMembers(df.rows, HasName);
    if forall i :: 0 <= i < |named| ==> HasTextName(named[i]) then
      Some(seq(|named|, i requires 0 <= i < |named| => assert named[i] in named; Display(named[i])))
    else None
  }

  /** The id the page continues with once `option` is chosen. */
  function SelectedSiteId(option: string): string
  {
    FirstPart(option, SEPARATOR)
  }

  // ---------------------------------------------------------------------
  // The detail lookup

  /**
   * `df[df['id_site'] == id].iloc[0]`: the index of the first row with the
   * id, or `None` where `iloc[0]` raises an IndexError.
   */
  function FirstWithId(rows: seq<Row>, id: string): (found: Option<nat>)
    ensures found.Some? ==> found.value < |rows| && Get(rows[found.value], "id_site", Null) == Text(id)
    ensures found.Some? ==> forall j :: 0 <= j < found.value ==> Get(rows[j], "id_site", Null) != Text(id)
    ensures found.None? <==> forall j :: 0 <= j < |rows| ==> Get(rows[j], "id_site", Null) != Text(id)
  {
    if rows == [] then None
    else if Get(rows[0], "id_site", Null) == Text(id) then Some(0)
    else
      var rest := FirstWithId(rows[1..], id);
      assert forall j :: 1 <= j < |rows| ==> rows[j] == rows[1..][j - 1];
      if rest.None? then None else Some(rest.value + 1)
  }

  /** The id of the `k`-th station offered. */
  function OfferedId(df: Frame, k: nat): string
    requires IsCatalog(df) && k < |NamedRows(df)|
  {
    FilterMembers(df.rows, HasName);
    assert NamedRows(df)[k] in NamedRows(df);
    NamedRows(df)[k]["id_site"].s
  }

  /**
   * Choosing the `k`-th option, for a station whose id contains no " - " and
   * does not end in " -", recovers that station's id, and the detail lookup
   * then finds a station with that id.
   */
  lemma SelectionFindsStation(df: Frame, k: nat)
    requires IsCatalog(df)
    requires SiteOptions(df).Some? && k < |SiteOptions(df).value|
    requires Free(OfferedId(df, k), SEPARATOR) && !EndsWith(OfferedId(df, k), " -")
    ensures SelectedSiteId(SiteOptions(df).value[k]) == OfferedId(df, k)
    ensures FirstWithId(df.rows, SelectedSiteId(SiteOptions(df).value[k])).Some?
  {
    var named := NamedRows(df);
    var station := named[k];
    FilterMembers(df.rows, HasName);
    assert station in named;
    assert SiteOptions(df).value[k] == Display(station);
    SplitRoundTrip(station["id_site"].s, station["nama_site"].s);
    var i :| 0 <= i < |df.rows| && df.rows[i] == station;
    assert Get(df.rows[i], "id_site", Null) == Text(station["id_site"].s);
  }
}
