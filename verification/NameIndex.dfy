/** The partial-name index of src/tdi_info.cpp: splitting a full name, generating its partial
    names, and building the map from partial names to tables. */
module NameIndex {
  import opened Strings
  import opened TdiObjects

  // ---------- splitString ----------

  predicate OccursAt(s: string, delimiter: string, pos: int) {
    0 <= pos && pos + |delimiter| <= |s| && s[pos..pos + |delimiter|] == delimiter
  }

  ghost predicate Contains(s: string, delimiter: string) {
    exists pos :: OccursAt(s, delimiter, pos)
  }

  datatype Position = At(pos: nat) | Npos

  /** `std::string::find`: the first occurrence at or after `start`. */
  method Find(s: string, delimiter: string, start: nat) returns (p: Position)
    requires start <= |s|
    ensures p.At? ==> start <= p.pos && OccursAt(s, delimiter, p.pos)
    ensures forall i :: start <= i && (p.At? ==> i < p.pos) ==> !OccursAt(s, delimiter, i)
  {
    var i := start;
    while i + |delimiter| <= |s|
      invariant start <= i
      invariant forall k :: start <= k < i ==> !OccursAt(s, delimiter, k)
    {
      if s[i..i + |delimiter|] == delimiter {
        return At(i);
      }
      i := i + 1;
    }
    p := Npos;
  }

  /** The tokens are free of the delimiter and join back to the input. */
  method SplitString(s: string, delimiter: string) returns (tokens: seq<string>)
    requires delimiter != ""
    ensures tokens != []
    ensures forall t :: t in tokens ==> !Contains(t, delimiter)
    ensures Join(tokens, delimiter) == s
    ensures |delimiter| == 1 ==> tokens == Split(s, delimiter[0])
  {
    hide Join, Split;
    var startPos := 0;
    tokens := [];
    JoinOne(s, delimiter);
    var pos := Find(s, delimiter, startPos);
    while pos.At?
      invariant startPos <= |s|
      invariant pos.At? ==> startPos <= pos.pos && OccursAt(s, delimiter, pos.pos)
      invariant forall i :: startPos <= i && (pos.At? ==> i < pos.pos) ==> !OccursAt(s, delimiter, i)
      invariant forall t :: t in tokens ==> !Contains(t, delimiter)
      invariant Join(tokens + [s[startPos..]], delimiter) == s
      decreases |s| - startPos
    {
      var token := s[startPos..pos.pos];
      PieceIsFree(s, delimiter, startPos, pos.pos);
      JoinRefine(tokens, token, s[pos.pos + |delimiter|..], delimiter);
      assert s[startPos..] == token + delimiter + s[pos.pos + |delimiter|..];
      tokens := tokens + [token];
      startPos := pos.pos + |delimiter|;
      pos := Find(s, delimiter, startPos);
    }
    PieceIsFree(s, delimiter, startPos, |s|);
    assert s[startPos..|s|] == s[startPos..];
    tokens := tokens + [s[startPos..]];
    if |delimiter| == 1 {
      TokensAreSplit(s, tokens, delimiter);
    }
  }

  lemma TokensAreSplit(s: string, tokens: seq<string>, delimiter: string)
    requires |delimiter| == 1 && tokens != [] && Join(tokens, delimiter) == s
    requires forall t :: t in tokens ==> !Contains(t, delimiter)
    ensures tokens == Split(s, delimiter[0])
  {
    assert delimiter == [delimiter[0]];
    forall t | t in tokens
      ensures delimiter[0] !in t
    {
      FreeOfChar(t, delimiter);
    }
    SplitJoin(tokens, delimiter[0]);
  }

  lemma JoinOne(s: string, sep: string)
    ensures Join([] + [s[0..]], sep) == s
  {
  }

  lemma PieceIsFree(s: string, delimiter: string, lo: nat, hi: nat)
    requires lo <= hi <= |s|
    requires forall i :: lo <= i < hi ==> !OccursAt(s, delimiter, i)
    requires delimiter != ""
    ensures !Contains(s[lo..hi], delimiter)
  {
    forall i | OccursAt(s[lo..hi], delimiter, i)
      ensures false
    {
      SliceOfSlice(s, lo, hi, i, i + |delimiter|);
      assert OccursAt(s, delimiter, lo + i);
    }
  }

  lemma SliceOfSlice(s: string, lo: nat, hi: nat, i: nat, j: nat)
    requires lo <= hi <= |s| && i <= j <= hi - lo
    ensures s[lo..hi][i..j] == s[lo + i..lo + j]
  {
    forall k | 0 <= k < j - i
      ensures s[lo..hi][i..j][k] == s[lo + i..lo + j][k]
    {
      assert s[lo..hi][i + k] == s[lo + i + k];
    }
  }

  lemma FreeOfChar(t: string, delimiter: string)
    requires |delimiter| == 1 && !Contains(t, delimiter)
    ensures delimiter[0] !in t
  {
    forall i | 0 <= i < |t|
      ensures t[i] != delimiter[0]
    {
      assert !OccursAt(t, delimiter, i);
      assert t[i..i + 1] == [t[i]];
    }
  }

  lemma {:induction false} JoinRefine(tokens: seq<string>, a: string, b: string, sep: string)
    ensures Join(tokens + [a] + [b], sep) == Join(tokens + [a + sep + b], sep)
  {
    if tokens == [] {
      assert [] + [a] + [b] == [a, b] && [a, b][1..] == [b];
      assert [] + [a + sep + b] == [a + sep + b];
    } else {
      JoinRefine(tokens[1..], a, b, sep);
      assert (tokens + [a] + [b])[1..] == tokens[1..] + [a] + [b];
      assert (tokens + [a + sep + b])[1..] == tokens[1..] + [a + sep + b];
    }
  }

  // ---------- generateUniqueNames ----------

  predicate EndsWithDot(s: string) { s != "" && s[|s| - 1] == '.' }

  function StripDots(s: string): (r: string)
    ensures r <= s && !EndsWithDot(r)
    ensures forall i :: |r| <= i < |s| ==> s[i] == '.'
  {
    if EndsWithDot(s) then StripDots(s[..|s| - 1]) else s
  }

  /** `x` is `s` or what follows some dot of `s`. */
  predicate IsDottedSuffix(x: string, s: string) {
    |x| <= |s| && s[|s| - |x|..] == x && (|x| == |s| || s[|s| - |x| - 1] == '.')
  }

  /** What generateUniqueNames returns: the dotted suffixes of the name without its trailing
      dots, and the empty name if there were any. */
  predicate Generates(name: string, x: string) {
    IsDottedSuffix(x, StripDots(name)) || (x == "" && EndsWithDot(name))
  }

  method GenerateUniqueNames(name: string) returns (names: set<string>)
    ensures forall x :: x in names <==> Generates(name, x)
  {
    var tokens := SplitString(name, ".");
    SplitIsFree(name, '.');
    var lastToken := "";
    names := {};
    var i := |tokens|;
    while i > 0
      invariant 0 <= i <= |tokens|
      invariant i == |tokens| ==> lastToken == "" && names == {}
      invariant i < |tokens| ==> lastToken == StripDots(Join(tokens[i..], "."))
      invariant i < |tokens| ==> forall x :: x in names <==> Generates(Join(tokens[i..], "."), x)
    {
      i := i - 1;
      var token := tokens[i];
      ghost var after := tokens[i + 1..];
      assert tokens[i..] == [token] + after && tokens[i..][1..] == after;
      assert token in tokens && '.' !in token;
      if after == [] {
        StripPlain(token);
        SuffixesOfPlain(token);
      } else {
        StripPrepend(token, Join(after, "."));
        GeneratesPrepend(token, Join(after, "."));
      }
      if lastToken == "" {
        names := names + {token};
        lastToken := token;
      } else {
        names := names + {token + "." + lastToken};
        lastToken := token + "." + lastToken;
      }
    }
    assert tokens[0..] == tokens;
  }

  lemma StripPlain(t: string)
    requires '.' !in t
    ensures StripDots(t) == t
  {
  }

  lemma SuffixesOfPlain(t: string)
    requires '.' !in t
    ensures forall x :: Generates(t, x) <==> x == t
  {
    StripPlain(t);
    assert forall i :: 0 <= i < |t| ==> t[i] in t;
  }

  lemma {:induction false} StripPrepend(t: string, j: string)
    requires '.' !in t
    ensures StripDots(t + "." + j) == if StripDots(j) == "" then t else t + "." + StripDots(j)
    decreases |j|
  {
    var s := t + "." + j;
    if j == "" {
      assert s[..|s| - 1] == t;
      StripPlain(t);
    } else if EndsWithDot(j) {
      assert s[..|s| - 1] == t + "." + j[..|j| - 1];
      StripPrepend(t, j[..|j| - 1]);
    }
  }

  lemma GeneratesPrepend(t: string, j: string)
    requires '.' !in t
    ensures forall x :: Generates(t + "." + j, x)
              <==> Generates(j, x) || x == (if StripDots(j) == "" then t else t + "." + StripDots(j))
  {
    StripPrepend(t, j);
    var b := StripDots(j);
    if b == "" {
      StripPlain(t);
      SuffixesOfPlain(t);
      forall x
        ensures Generates(t + "." + j, x) <==> Generates(j, x) || x == t
      {
        assert IsDottedSuffix(x, t) <==> x == t by { assert Generates(t, x) <==> x == t; }
        assert EndsWithDot(t + "." + j);
        assert IsDottedSuffix(x, "") <==> x == "";
      }
    } else {
      forall x
        ensures Generates(t + "." + j, x) <==> Generates(j, x) || x == t + "." + b
      {
        SuffixPrepend(t, b, x);
        assert EndsWithDot(t + "." + j) <==> EndsWithDot(j);
      }
    }
  }

  lemma SuffixPrepend(t: string, b: string, x: string)
    requires '.' !in t
    ensures IsDottedSuffix(x, t + "." + b) <==> x == t + "." + b || IsDottedSuffix(x, b)
  {
    var s := t + "." + b;
    assert forall i :: 0 <= i < |t| ==> s[i] == t[i] && t[i] in t;
    if |x| <= |b| {
      assert s[|s| - |x|..] == b[|b| - |x|..];
      if |x| < |b| {
        assert s[|s| - |x| - 1] == b[|b| - |x| - 1];
      }
    } else if |x| < |s| {
      assert s[|s| - |x| - 1] != '.';
    }
  }

  lemma GeneratedEndsWithoutDot(name: string, x: string)
    requires Generates(name, x)
    ensures !EndsWithDot(x)
  {
    var b := StripDots(name);
    if x != "" {
      assert b[|b| - |x|..][|x| - 1] == b[|b| - 1];
    }
  }

  /** `x` stands in the name at `k`, at the front or after a dot, with nothing but dots after it. */
  predicate StandsAt(name: string, x: string, k: nat) {
    && k + |x| <= |name| && name[k..k + |x|] == x && (k == 0 || name[k - 1] == '.')
    && forall i :: k + |x| <= i < |name| ==> name[i] == '.'
  }

  lemma StandingIsGenerated(name: string, x: string, k: nat)
    requires StandsAt(name, x, k) && !EndsWithDot(x)
    ensures Generates(name, x)
  {
    var r := StripDots(name);
    if x == "" {
      assert k < |name| ==> name[|name| - 1] == '.';
      if name == "" {
        assert IsDottedSuffix("", "");
      }
    } else {
      assert name[k + |x| - 1] == x[|x| - 1];
      assert |r| == k + |x|;
      assert r[k..] == x;
      assert IsDottedSuffix(x, r);
    }
  }

  lemma GeneratedStands(name: string, x: string) returns (k: nat)
    requires Generates(name, x)
    ensures k <= |name| && StandsAt(name, x, k)
  {
    var r := StripDots(name);
    if IsDottedSuffix(x, r) {
      k := |r| - |x|;
      assert name[k..k + |x|] == r[k..];
    } else {
      k := |name|;
    }
  }

  /** In the name's own characters: generated is what stands somewhere in it and does not end with
      a dot. */
  lemma GeneratesIff(name: string, x: string)
    ensures Generates(name, x) <==> !EndsWithDot(x) && exists k :: 0 <= k <= |name| && StandsAt(name, x, k)
  {
    hide StandsAt;
    if Generates(name, x) {
      GeneratedEndsWithoutDot(name, x);
      var k := GeneratedStands(name, x);
    }
    hide Generates, EndsWithDot;
    if k :| 0 <= k <= |name| && StandsAt(name, x, k) {
      if !EndsWithDot(x) {
        StandingIsGenerated(name, x, k);
      }
    }
  }

  // ---------- populateFullNameMap ----------

  predicate GeneratedBy<T>(nameMap: map<string, T>, x: string, k: string) {
    k in nameMap && Generates(k, x)
  }

  /** Of the tables of `nameMap`, `k` and no other generates the name `x`. */
  ghost predicate SoleOwner<T>(nameMap: map<string, T>, x: string, k: string) {
    GeneratedBy(nameMap, x, k) && forall m :: GeneratedBy(nameMap, x, m) ==> m == k
  }

  /** The index maps exactly the names with a sole owner, each to its owner. */
  ghost predicate IsIndex<T>(nameMap: map<string, T>, full: map<string, T>) {
    && (forall x :: x in full ==> exists k :: SoleOwner(nameMap, x, k) && full[x] == nameMap[k])
    && (forall x, k :: SoleOwner(nameMap, x, k) ==> x in full && full[x] == nameMap[k])
  }

  /** The two loops over the tables `done` so far: who is in the map, who is marked. */
  ghost predicate Marked<T>(nameMap: map<string, T>, done: set<string>,
                            full: map<string, T>, toRemove: set<string>) {
    && done <= nameMap.Keys
    && (forall x :: x in full ==> exists k :: k in done && GeneratedBy(nameMap, x, k) && full[x] == nameMap[k])
    && (forall x, k :: k in done && GeneratedBy(nameMap, x, k) ==> x in full)
    && (forall x :: x in toRemove ==>
          exists k, m :: k in done && m in done && k != m && GeneratedBy(nameMap, x, k) && GeneratedBy(nameMap, x, m))
    && (forall x, k, m :: k in done && m in done && k != m && GeneratedBy(nameMap, x, k) && GeneratedBy(nameMap, x, m)
          ==> x in toRemove)
  }

  /** The inner loop: enter the names that are new, mark those that are taken. */
  method AddNames<T>(table: T, names: set<string>, full0: map<string, T>, marks0: set<string>)
    returns (full: map<string, T>, marks: set<string>)
    ensures full == full0 + map x | x in names && x !in full0 :: table
    ensures marks == marks0 + names * full0.Keys
  {
    full, marks := full0, marks0;
    var left := names;
    while left != {}
      invariant left <= names
      invariant full == full0 + map x | x in names - left && x !in full0 :: table
      invariant marks == marks0 + (names - left) * full0.Keys
      decreases left
    {
      var x :| x in left;
      if x in full {
        marks := marks + {x};
      } else {
        full := full[x := table];
      }
      left := left - {x};
    }
  }

  method PopulateFullNameMap<T>(nameMap: map<string, T>) returns (fullNameMap: map<string, T>)
    ensures IsIndex(nameMap, fullNameMap)
  {
    fullNameMap := map[];
    var namesToRemove := {};
    var todo := nameMap.Keys;
    while todo != {}
      invariant todo <= nameMap.Keys
      invariant Marked(nameMap, nameMap.Keys - todo, fullNameMap, namesToRemove)
      decreases todo
    {
      // any order of the tables gives the same index
      var name :| name in todo;
      ghost var full0, marks0 := fullNameMap, namesToRemove;
      var prospective := GenerateUniqueNames(name);
      fullNameMap, namesToRemove := AddNames(nameMap[name], prospective, fullNameMap, namesToRemove);
      OneMoreTable(nameMap, nameMap.Keys - todo, full0, marks0, name, fullNameMap, namesToRemove, prospective);
      assert nameMap.Keys - todo + {name} == nameMap.Keys - (todo - {name});
      todo := todo - {name};
    }
    assert nameMap.Keys - {} == nameMap.Keys;
    IndexFromMarks(nameMap, fullNameMap, namesToRemove);
    fullNameMap := fullNameMap - namesToRemove;
  }

  lemma OneMoreTable<T>(nameMap: map<string, T>, done: set<string>, full0: map<string, T>, marks0: set<string>,
                        name: string, full: map<string, T>, marks: set<string>, names: set<string>)
    requires Marked(nameMap, done, full0, marks0) && name in nameMap && name !in done
    requires forall x :: x in names <==> Generates(name, x)
    requires full == full0 + map x | x in names && x !in full0 :: nameMap[name]
    requires marks == marks0 + names * full0.Keys
    ensures Marked(nameMap, done + {name}, full, marks)
  {
    hide Generates;
    var now := done + {name};
    forall x | x in full
      ensures exists k :: k in now && GeneratedBy(nameMap, x, k) && full[x] == nameMap[k]
    {
      if x in full0 {
        var k :| k in done && GeneratedBy(nameMap, x, k) && full0[x] == nameMap[k];
        assert k in now;
      } else {
        assert GeneratedBy(nameMap, x, name);
      }
    }
    forall x | x in marks
      ensures exists k, m :: k in now && m in now && k != m && GeneratedBy(nameMap, x, k) && GeneratedBy(nameMap, x, m)
    {
      if x in marks0 {
        var k, m :| k in done && m in done && k != m && GeneratedBy(nameMap, x, k) && GeneratedBy(nameMap, x, m);
        assert k in now && m in now;
      } else {
        var k :| k in done && GeneratedBy(nameMap, x, k) && full0[x] == nameMap[k];
        assert k in now && name in now && k != name && GeneratedBy(nameMap, x, name);
      }
    }
  }

  lemma IndexFromMarks<T>(nameMap: map<string, T>, full: map<string, T>, marks: set<string>)
    requires Marked(nameMap, nameMap.Keys, full, marks)
    ensures IsIndex(nameMap, full - marks)
  {
    forall x | x in full - marks
      ensures exists k :: SoleOwner(nameMap, x, k) && (full - marks)[x] == nameMap[k]
    {
      var k :| k in nameMap.Keys && GeneratedBy(nameMap, x, k) && full[x] == nameMap[k];
      assert SoleOwner(nameMap, x, k);
    }
    forall x, k | SoleOwner(nameMap, x, k)
      ensures x in full - marks && (full - marks)[x] == nameMap[k]
    {
      assert x in full;
    }
  }

  /** The index does not depend on the order in which the tables are visited. */
  lemma IndexIsUnique<T>(nameMap: map<string, T>, full1: map<string, T>, full2: map<string, T>)
    requires IsIndex(nameMap, full1) && IsIndex(nameMap, full2)
    ensures full1 == full2
  {
    forall x | x in full1
      ensures x in full2 && full2[x] == full1[x]
    {
      var k :| SoleOwner(nameMap, x, k) && full1[x] == nameMap[k];
    }
    forall x | x in full2
      ensures x in full1
    {
      var k :| SoleOwner(nameMap, x, k) && full2[x] == nameMap[k];
    }
  }

  /** A full name without trailing dot resolves to its own table exactly when it is not a
      dotted suffix of another table's name; if not, it resolves to nothing. */
  lemma FullNameResolves<T>(nameMap: map<string, T>, full: map<string, T>, name: string)
    requires IsIndex(nameMap, full) && name in nameMap && !EndsWithDot(name)
    ensures name in full <==> forall m :: m in nameMap && m != name ==> !Generates(m, name)
    ensures name in full ==> full[name] == nameMap[name]
  {
    assert GeneratedBy(nameMap, name, name);
    if name in full {
      var k :| SoleOwner(nameMap, name, k) && full[name] == nameMap[k];
      assert k == name;
      forall m | m in nameMap && m != name
        ensures !Generates(m, name)
      {
        assert !GeneratedBy(nameMap, name, m);
      }
    } else {
      assert !SoleOwner(nameMap, name, name);
    }
  }

  /** No name with a trailing dot is ever in the index, so such a full name cannot be looked up. */
  lemma TrailingDotNeverResolves<T>(nameMap: map<string, T>, full: map<string, T>, x: string)
    requires IsIndex(nameMap, full) && EndsWithDot(x)
    ensures x !in full
  {
    forall k | SoleOwner(nameMap, x, k)
      ensures false
    {
      GeneratedEndsWithoutDot(k, x);
    }
  }

  /** A further table never redirects a partial name: it keeps its table or becomes ambiguous. */
  lemma NewTableNeverRedirects<T>(nameMap: map<string, T>, full: map<string, T>, name: string, t: T,
                                  more: map<string, T>, grown: map<string, T>, x: string)
    requires IsIndex(nameMap, full) && x in full
    requires name !in nameMap && more == nameMap[name := t] && IsIndex(more, grown)
    ensures x in grown <==> !Generates(name, x)
    ensures x in grown ==> grown[x] == full[x]
  {
    var k :| SoleOwner(nameMap, x, k) && full[x] == nameMap[k];
    assert forall m :: GeneratedBy(more, x, m) <==> GeneratedBy(nameMap, x, m) || (m == name && Generates(name, x));
    if Generates(name, x) {
      assert GeneratedBy(more, x, name) && GeneratedBy(more, x, k);
      assert forall m :: !SoleOwner(more, x, m);
    } else {
      assert SoleOwner(more, x, k);
    }
  }

  // ---------- TdiInfo lookups ----------

  datatype Lookup<T> = Success(found: T) | InvalidArg | ObjectNotFound

  class TdiInfo<T, L> {
    var tableMap: map<string, T>
    var tableIdMap: map<Id, T>
    var fullTableMap: map<string, T>
    var learnMap: map<string, L>
    var learnIdMap: map<Id, L>
    var fullLearnMap: map<string, L>
    var invalidTableNames: set<string>
    ghost const tables: seq<Parsed<T>>   // what the parser found
    ghost const learns: seq<Parsed<L>>

    ghost predicate Valid()
      reads this
    {
      && ByName(tables, |tables|, tableMap) && ById(tables, |tables|, tableIdMap)
      && ByName(learns, |learns|, learnMap) && ById(learns, |learns|, learnIdMap)
      && IsIndex(tableMap, fullTableMap) && IsIndex(learnMap, fullLearnMap)
    }

    constructor (parsedTables: seq<Parsed<T>>, parsedLearns: seq<Parsed<L>>)
      ensures Valid() && tables == parsedTables && learns == parsedLearns && invalidTableNames == {}
    {
      tables, learns, invalidTableNames := parsedTables, parsedLearns, {};
      var objects, ids := CreateObjects(parsedTables);
      var index := PopulateFullNameMap(objects);
      tableMap, tableIdMap, fullTableMap := objects, ids, index;
      var learnObjects, learnIds := CreateObjects(parsedLearns);
      var learnIndex := PopulateFullNameMap(learnObjects);
      learnMap, learnIdMap, fullLearnMap := learnObjects, learnIds, learnIndex;
    }

    /** A lookup succeeds exactly on a valid name that one table alone generates. */
    method TableFromNameGet(name: string) returns (r: Lookup<T>)
      requires Valid()
      ensures r.InvalidArg? <==> name in invalidTableNames
      ensures r.Success? <==> name !in invalidTableNames && exists k :: SoleOwner(tableMap, name, k)
      ensures forall k :: r.Success? && SoleOwner(tableMap, name, k) ==> r.found == tableMap[k]
    {
      if name in invalidTableNames {
        return InvalidArg;
      }
      if name !in fullTableMap {
        return ObjectNotFound;
      }
      return Success(fullTableMap[name]);
    }

    /** An id leads to the first table that was stored with it. */
    method TableFromIdGet(id: Id) returns (r: Lookup<T>)
      requires Valid()
      ensures r.Success? <==> exists i :: 0 <= i < |tables| && Stored(tables, i) && tables[i].id == id
      ensures r.Success? ==> exists i :: 0 <= i < |tables| && FirstOfId(tables, i) &&
                                         tables[i].id == id && tables[i].made == Some(r.found)
    {
      hide Stored, FirstOfId, ByName, ById, IsIndex;
      IdIsKnownIff(tables, tableIdMap, id);
      if id in tableIdMap { IdLeadsToFirst(tables, tableIdMap, id); }
      if id !in tableIdMap {
        return ObjectNotFound;
      }
      return Success(tableIdMap[id]);
    }

    /** The same as for tables, but that no name is marked invalid. */
    method LearnFromNameGet(name: string) returns (r: Lookup<L>)
      requires Valid()
      ensures r.Success? <==> exists k :: SoleOwner(learnMap, name, k)
      ensures forall k :: r.Success? && SoleOwner(learnMap, name, k) ==> r.found == learnMap[k]
    {
      if name !in fullLearnMap {
        return ObjectNotFound;
      }
      return Success(fullLearnMap[name]);
    }
  }
}
