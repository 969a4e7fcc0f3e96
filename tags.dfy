/** The `Tag` record of vtpy.py: one row of a tag table as a column-to-value
    dictionary, the per-type cache of column names that construction fills,
    and the guess of a tag's type from its name. */
module Tags {
  import opened Wrappers
  import opened Strings

  /** A cell of a row: a string, or Python's `None`. */
  type Value = Option<string>

  /** Python's `zip(columns, values)`: pairs up to the shorter length. */
  function Zip<V>(columns: seq<string>, values: seq<V>): (pairs: seq<(string, V)>)
    ensures |pairs| == if |columns| <= |values| then |columns| else |values|
    ensures forall i :: 0 <= i < |pairs| ==> pairs[i] == (columns[i], values[i])
    decreases |columns|
  {
    if |columns| == 0 || |values| == 0 then []
    else [(columns[0], values[0])] + Zip(columns[1..], values[1..])
  }

  /** Python's `dict(pairs)`: pairs are entered left to right, so for a
      repeated key the later pair wins. */
  function Dict<V>(pairs: seq<(string, V)>): map<string, V>
    decreases |pairs|
  {
    if |pairs| == 0 then map[]
    else Dict(pairs[..|pairs| - 1])[pairs[|pairs| - 1].0 := pairs[|pairs| - 1].1]
  }

  /** The keys of `dict(pairs)` are exactly the first components, and each
      key holds the value of the last pair that names it. */
  lemma {:induction false} DictSpec<V>(pairs: seq<(string, V)>)
    ensures Dict(pairs).Keys == set i | 0 <= i < |pairs| :: pairs[i].0
    ensures forall i :: 0 <= i < |pairs| && (forall j :: i < j < |pairs| ==> pairs[j].0 != pairs[i].0) ==>
              Dict(pairs)[pairs[i].0] == pairs[i].1
    decreases |pairs|
  {
    if |pairs| > 0 {
      var n := |pairs| - 1;
      var front := pairs[..n];
      DictSpec(front);
      assert forall i :: 0 <= i < n ==> front[i] == pairs[i];
      assert (set i | 0 <= i < |pairs| :: pairs[i].0) == (set i | 0 <= i < n :: front[i].0) + {pairs[n].0};
    }
  }

  /** The pairs of `zip(columns, values)` name the columns below the
      shorter length. */
  lemma ZipKeys(columns: seq<string>, values: seq<Value>)
    ensures var pairs := Zip(columns, values);
      (set i | 0 <= i < |pairs| :: pairs[i].0) == (set i | 0 <= i < |pairs| :: columns[i])
  {
    var pairs := Zip(columns, values);
    var fromPairs := set i | 0 <= i < |pairs| :: pairs[i].0;
    var fromColumns := set i | 0 <= i < |pairs| :: columns[i];
    forall c | c in fromPairs ensures c in fromColumns {
      var i :| 0 <= i < |pairs| && pairs[i].0 == c;
      assert columns[i] == c;
    }
    forall c | c in fromColumns ensures c in fromPairs {
      var i :| 0 <= i < |pairs| && columns[i] == c;
      assert pairs[i].0 == c;
    }
  }

  /** The column-to-value dictionary `Tag.__init__` builds: `columns[i]` maps
      to `values[i]` for every `i` below the shorter length, there are no
      other keys, and a repeated column name keeps its last value. */
  lemma ValueDictSpec(columns: seq<string>, values: seq<Value>)
    ensures var n := if |columns| <= |values| then |columns| else |values|;
      Dict(Zip(columns, values)).Keys == (set i | 0 <= i < n :: columns[i]) &&
      forall i :: 0 <= i < n && (forall j :: i < j < n ==> columns[j] != columns[i]) ==>
        Dict(Zip(columns, values))[columns[i]] == values[i]
  {
    var pairs := Zip(columns, values);
    DictSpec(pairs);
    ZipKeys(columns, values);
    forall i | 0 <= i < |pairs| && (forall j :: i < j < |pairs| ==> columns[j] != columns[i])
      ensures Dict(pairs)[columns[i]] == values[i]
    {
      assert forall j :: i < j < |pairs| ==> pairs[j].0 != pairs[i].0;
    }
  }

  /** The cache after one construction of a tag of type `tagType`: an entry
      is written only for a type not seen before. */
  function Remembered(cache: map<string, seq<string>>, tagType: string, columns: seq<string>): map<string, seq<string>>
  {
    if tagType in cache then cache else cache[tagType := columns]
  }

  /** The cache after a run of constructions, each a (type, columns) pair. */
  function RememberAll(cache: map<string, seq<string>>, made: seq<(string, seq<string>)>): map<string, seq<string>>
    decreases |made|
  {
    if |made| == 0 then cache
    else RememberAll(Remembered(cache, made[0].0, made[0].1), made[1..])
  }

  /** A type already cached keeps its entry through any later constructions. */
  lemma {:induction false} CachedEntryStable(cache: map<string, seq<string>>, made: seq<(string, seq<string>)>, t: string)
    requires t in cache
    ensures t in RememberAll(cache, made) && RememberAll(cache, made)[t] == cache[t]
    decreases |made|
  {
    if |made| > 0 {
      CachedEntryStable(Remembered(cache, made[0].0, made[0].1), made[1..], t);
    }
  }

  /** A type not cached keeps the columns of the first construction of that
      type: first write wins. */
  lemma {:induction false} FirstConstructionWins(cache: map<string, seq<string>>, made: seq<(string, seq<string>)>, t: string, k: nat)
    requires t !in cache
    requires k < |made| && made[k].0 == t
    requires forall j :: 0 <= j < k ==> made[j].0 != t
    ensures t in RememberAll(cache, made) && RememberAll(cache, made)[t] == made[k].1
    decreases |made|
  {
    var next := Remembered(cache, made[0].0, made[0].1);
    if k == 0 {
      CachedEntryStable(next, made[1..], t);
    } else {
      FirstConstructionWins(next, made[1..], t, k - 1);
    }
  }

  /** A type never constructed and not cached stays absent. */
  lemma {:induction false} UnseenTypeAbsent(cache: map<string, seq<string>>, made: seq<(string, seq<string>)>, t: string)
    requires t !in cache
    requires forall j :: 0 <= j < |made| ==> made[j].0 != t
    ensures t !in RememberAll(cache, made)
    decreases |made|
  {
    if |made| > 0 {
      UnseenTypeAbsent(Remembered(cache, made[0].0, made[0].1), made[1..], t);
    }
  }

  /** The class-level dictionary `Tag._column_names`, made an explicit
      object that every construction updates. */
  class ColumnRegistry {
    var columnNames: map<string, seq<string>>

    constructor ()
      ensures columnNames == map[]
    {
      columnNames := map[];
    }

    /** Records `columns` for `tagType` only if the type has no entry yet;
        every other entry is left as it was. */
    method Remember(tagType: string, columns: seq<string>)
      modifies this
      ensures tagType in columnNames
      ensures tagType in old(columnNames) ==> columnNames == old(columnNames)
      ensures tagType !in old(columnNames) ==> columnNames == old(columnNames)[tagType := columns]
      ensures columnNames == Remembered(old(columnNames), tagType, columns)
    {
      if tagType !in columnNames {
        columnNames := columnNames[tagType := columns];
      }
    }
  }

  /** One row of a tag table. */
  class Tag {
    const tagType: string
    const valueDict: map<string, Value>

    /** `Tag(tag_type, columns, values)`: the dictionary of the zipped pairs,
        and the type's columns remembered on first sight. */
    constructor (tagType: string, columns: seq<string>, values: seq<Value>, registry: ColumnRegistry)
      modifies registry
      ensures this.tagType == tagType
      ensures valueDict == Dict(Zip(columns, values))
      ensures registry.columnNames == Remembered(old(registry.columnNames), tagType, columns)
    {
      this.tagType := tagType;
      valueDict := Dict(Zip(columns, values));
      new;
      registry.Remember(tagType, columns);
    }
  }

  /** The separator of tag paths: two backslash characters. */
  const PathSeparator: string := "\\\\"

  /** The known tag types and the name prefixes that identify each, in the
      order they are searched. */
  const TagTypes: seq<(string, seq<string>)> := [
    ("AB_AI", ["LT", "LIT", "AIT", "FIT", "PIT", "TT", "WIT", "TT", "ZA", "ZS"]),
    ("AB_DA", ["TAH", "TAL", "LAHH", "SD", "LS", "VAH", "PAH", "PAL", "FAL", "LAL", "LAH"]),
    ("AB_FV", ["FV"]),
    ("AB_FCV", ["FCV"]),
    ("AB_MOTOR", ["P", "CP", "SC", "BL", "CF"]),
    ("AB_TOTALIZER", [])
  ]

  /** The text the type is guessed from: the last path segment, cut at its
      first underscore. */
  function TypeKey(name: string): string {
    FirstPart(LastPart(name, PathSeparator), "_")
  }

  /** Python's `next((t[0] for t in types if key in t[1]), None)`. */
  function FirstMatch(types: seq<(string, seq<string>)>, key: string): (r: Option<string>)
    ensures r.Some? ==> exists i :: 0 <= i < |types| && types[i].0 == r.value && key in types[i].1 &&
                          forall j :: 0 <= j < i ==> key !in types[j].1
    ensures r.None? <==> forall i :: 0 <= i < |types| ==> key !in types[i].1
    decreases |types|
  {
    if |types| == 0 then None
    else if key in types[0].1 then Some(types[0].0)
    else FirstMatch(types[1..], key)
  }

  /** `Tag.assumed_type_ab(name)`: the type of the first prefix list that
      holds the name's key, or `None` when no list holds it. */
  function AssumedTypeAb(name: string): (r: Option<string>)
    ensures r.Some? ==> exists i :: 0 <= i < |TagTypes| && TagTypes[i].0 == r.value && TypeKey(name) in TagTypes[i].1
    ensures r.None? <==> forall i :: 0 <= i < |TagTypes| ==> TypeKey(name) !in TagTypes[i].1
  {
    FirstMatch(TagTypes, TypeKey(name))
  }

  /** No prefix is listed under two different types. */
  lemma PrefixListsDisjoint(i: nat, j: nat, p: string)
    requires i < |TagTypes| && j < |TagTypes| && i != j
    requires p in TagTypes[i].1
    ensures p !in TagTypes[j].1
  {
  }

  /** The type names are pairwise different. */
  lemma TypeNamesDistinct(i: nat, j: nat)
    requires i < |TagTypes| && j < |TagTypes| && i != j
    ensures TagTypes[i].0 != TagTypes[j].0
  {
  }

  /** The guess names type `i` exactly when the key is among type `i`'s
      prefixes, so the order of the search does not matter. */
  lemma AssumedTypeExact(name: string, i: nat)
    requires i < |TagTypes|
    ensures AssumedTypeAb(name) == Some(TagTypes[i].0) <==> TypeKey(name) in TagTypes[i].1
  {
    var key := TypeKey(name);
    var r := AssumedTypeAb(name);
    if key in TagTypes[i].1 {
      assert r.Some?;
      var k :| 0 <= k < |TagTypes| && TagTypes[k].0 == r.value && key in TagTypes[k].1;
      if k != i {
        PrefixListsDisjoint(i, k, key);
      }
    }
    if r == Some(TagTypes[i].0) {
      var k :| 0 <= k < |TagTypes| && TagTypes[k].0 == r.value && key in TagTypes[k].1;
      if k != i {
        TypeNamesDistinct(i, k);
      }
    }
  }

  /** The guess is `None` or one of the five types that have prefixes; never
      `AB_TOTALIZER`, whose list is empty. */
  lemma AssumedTypeRange(name: string)
    ensures AssumedTypeAb(name) in {None, Some("AB_AI"), Some("AB_DA"), Some("AB_FV"), Some("AB_FCV"), Some("AB_MOTOR")}
    ensures AssumedTypeAb(name) != Some("AB_TOTALIZER")
    ensures AssumedTypeAb(name).None? <==> forall i :: 0 <= i < |TagTypes| ==> TypeKey(name) !in TagTypes[i].1
  {
    var r := AssumedTypeAb(name);
    if r.Some? {
      var k :| 0 <= k < |TagTypes| && TagTypes[k].0 == r.value && TypeKey(name) in TagTypes[k].1;
      assert k != 5;
    }
  }

  /** The key is the prefix of the path's last segment up to its first
      underscore; that segment is the suffix of the name after its last
      path separator. */
  lemma TypeKeySpec(name: string)
    ensures var segment := LastPart(name, PathSeparator);
      |segment| <= |name| && segment == name[|name| - |segment|..] &&
      !Contains(segment, PathSeparator) &&
      (!Contains(name, PathSeparator) ==> segment == name) &&
      (Contains(name, PathSeparator) ==>
         |segment| + 2 <= |name| && OccursAt(name, PathSeparator, |name| - |segment| - 2)) &&
      TypeKey(name) == segment[..|TypeKey(name)|] &&
      !Contains(TypeKey(name), "_") &&
      (!Contains(segment, "_") ==> TypeKey(name) == segment) &&
      (Contains(segment, "_") ==> OccursAt(segment, "_", |TypeKey(name)|)) &&
      (forall j: nat :: j < |TypeKey(name)| ==> !OccursAt(segment, "_", j)) &&
      (FindFrom(name, PathSeparator, 0).Some? ==>
         segment == LastPart(name[FindFrom(name, PathSeparator, 0).value + 2..], PathSeparator))
  {
    LastPartSpec(name, PathSeparator);
    FirstPartSpec(LastPart(name, PathSeparator), "_");
  }

  /** The last segment of `Plant\\\\LT_101`. */
  lemma AreaPathSegment()
    ensures LastPart("Plant\\\\LT_101", PathSeparator) == "LT_101"
  {
    var r1 := "Plant\\\\LT_101";
    FindAt(r1, PathSeparator, 5);
    LastPartAfter(r1, PathSeparator, 5);
    assert r1[7..] == "LT_101";
    FindNone("LT_101", PathSeparator);
  }

  /** The last segment of a plant path. */
  lemma PlantPathSegment()
    ensures LastPart("\\\\Plant\\\\LT_101", PathSeparator) == "LT_101"
  {
    var s := "\\\\Plant\\\\LT_101";
    FindAt(s, PathSeparator, 0);
    LastPartAfter(s, PathSeparator, 0);
    assert s[2..] == "Plant\\\\LT_101";
    AreaPathSegment();
  }

  /** Three backslashes in a row: Python cuts at the first two, so the last
      segment keeps the third. */
  lemma OverlappingSeparatorSegment()
    ensures LastPart("a\\\\\\b", PathSeparator) == "\\b"
  {
    var s := "a\\\\\\b";
    assert s[0] == 'a';
    assert s[1..3] == PathSeparator;
    FindAt(s, PathSeparator, 1);
    LastPartAfter(s, PathSeparator, 1);
    assert s[3..] == "\\b";
    var rest := "\\b";
    assert rest[1] == 'b';
    assert !OccursAt(rest, PathSeparator, 0);
    assert FindFrom(rest, PathSeparator, 0).None?;
    assert LastPart(rest, PathSeparator) == rest;
  }

  /** A plant path: the last segment is `LT_101` and its key `LT`. */
  lemma AssumedTypeOfPlantPath()
    ensures TypeKey("\\\\Plant\\\\LT_101") == "LT"
    ensures AssumedTypeAb("\\\\Plant\\\\LT_101") == Some("AB_AI")
  {
    PlantPathSegment();
    var segment := "LT_101";
    assert segment[2..3] == "_";
    assert segment[0] == 'L' && segment[1] == 'T';
    FindAt(segment, "_", 2);
    FirstPartBefore("LT_101", "_", 2);
    assert "LT_101"[..2] == "LT";
  }

  /** Without the underscore the key is the whole name, which is no prefix. */
  lemma AssumedTypeOfBareName()
    ensures TypeKey("LT101") == "LT101"
    ensures AssumedTypeAb("LT101") == None
  {
    var s := "LT101";
    FindNone(s, PathSeparator);
    assert LastPart(s, PathSeparator) == s;
    FindNone(s, "_");
    assert FirstPart(s, "_") == s;
    assert forall i :: 0 <= i < |TagTypes| ==> s !in TagTypes[i].1;
  }
}
