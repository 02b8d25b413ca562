/** Parameter names of the generated table methods (tdi_python/tdicli.py): each key and data
    field is named by as few trailing components of its dotted name as keep all names apart. */
module ParamNames {
  import opened Strings

  const MAX_DEPTH: nat := 20
  const MAX_TRIES: nat := 50

  function Sanitise(name: string): string {
    if name == "" then ""
    else (if name[0] == '$' then ""
          else if name[0] in {'-', ':', '[', ']'} then "_"
          else [name[0]]) + Sanitise(name[1..])
  }

  /** Dollar signs vanish, the other special characters become underscores, all else stays. */
  lemma {:induction false} SanitiseAt(name: string)
    requires '$' !in name
    ensures |Sanitise(name)| == |name|
    ensures forall k :: 0 <= k < |name| ==>
              Sanitise(name)[k] == if name[k] in {'-', ':', '[', ']'} then '_' else name[k]
  {
    if name != "" {
      assert forall x :: x in name[1..] ==> x in name;
      assert name[0] in name;
      SanitiseAt(name[1..]);
    }
  }

  lemma {:induction false} DollarVanishes(a: string, b: string)
    ensures Sanitise(a + "$" + b) == Sanitise(a + b)
  {
    if a == "" {
      assert ("" + "$" + b)[1..] == b && "" + b == b;
    } else {
      assert (a + "$" + b)[1..] == a[1..] + "$" + b && (a + b)[1..] == a[1..] + b;
      DollarVanishes(a[1..], b);
    }
  }

  function DotsToUnderscores(s: string): string {
    if s == "" then "" else [if s[0] == '.' then '_' else s[0]] + DotsToUnderscores(s[1..])
  }

  function Components(name: string): (c: seq<string>)
    ensures 1 <= |c|
  {
    Split(Sanitise(name), '.')
  }

  function LastN(c: seq<string>, n: nat): seq<string> {
    if n <= |c| then c[|c| - n..] else c
  }

  /** The specification of a shortened name: its last `ridx` components joined by underscores. */
  function ShortName(name: string, ridx: nat): string {
    Join(LastN(Components(name), ridx), "_")
  }

  /** The name at full depth. */
  function FlatName(name: string): string { Join(Components(name), "_") }

  // ---------- Shortening one name ----------

  lemma {:induction false} SplitAtDot(a: string, b: string)
    ensures Split(a + "." + b, '.') == Split(a, '.') + Split(b, '.')
  {
    var s := a + "." + b;
    if a == "" {
      assert s == "." + b && s[1..] == b;
    } else {
      assert s[1..] == a[1..] + "." + b;
      SplitAtDot(a[1..], b);
    }
  }

  lemma SplitPlain(t: string)
    requires '.' !in t
    ensures Split(t, '.') == [t]
  {
    SplitToken(t, "", '.');
    assert t + "" == t;
  }

  lemma JoinPrefix(x: string, tokens: seq<string>, sep: string)
    requires tokens != []
    ensures Join([x + tokens[0]] + tokens[1..], sep) == x + Join(tokens, sep)
  {
    var all := [x + tokens[0]] + tokens[1..];
    assert all[1..] == tokens[1..];
    if |tokens| > 1 {
      assert x + (tokens[0] + sep + Join(tokens[1..], sep)) == (x + tokens[0]) + sep + Join(tokens[1..], sep);
    }
  }

  lemma {:induction false} JoinOfSplit(s: string)
    ensures DotsToUnderscores(s) == Join(Split(s, '.'), "_")
  {
    if s != "" {
      JoinOfSplit(s[1..]);
      var rest := Split(s[1..], '.');
      if s[0] == '.' {
        JoinEmptyFirst(rest, "_");
      } else {
        JoinPrefix([s[0]], rest, "_");
      }
    }
  }

  lemma JoinEmptyFirst(tokens: seq<string>, sep: string)
    requires tokens != []
    ensures Join([""] + tokens, sep) == sep + Join(tokens, sep)
  {
    assert ([""] + tokens)[1..] == tokens;
    assert "" + sep == sep;
  }

  /** `s.rfind('.', 0, hi)` */
  method RFindDot(s: string, hi: nat) returns (i: int)
    requires hi <= |s|
    ensures -1 <= i < hi
    ensures i >= 0 ==> s[i] == '.'
    ensures forall k :: i < k < hi ==> s[k] != '.'
  {
    i := hi - 1;
    while i >= 0 && s[i] != '.'
      invariant -1 <= i < hi
      invariant forall k :: i < k < hi ==> s[k] != '.'
    {
      i := i - 1;
    }
  }

  /** The loop that walks back over `ridx` dots; `cidx` is -1 when the name runs out of dots. */
  method Shorten(name: string, ridx: nat) returns (pName: string, cidx: int)
    requires 1 <= ridx
    ensures pName == ShortName(name, ridx)
    ensures cidx == -1 <==> |Components(name)| <= ridx
  {
    hide Sanitise, Split, Join, DotsToUnderscores;
    var s := Sanitise(name);
    ghost var c := Components(name);
    cidx := |s|;
    var i := 0;
    assert s[..cidx] == s && c[..|c| - i] == c;
    while i < ridx && cidx != -1
      invariant 0 <= i <= ridx
      invariant cidx == -1 ==> 1 <= |c| <= i
      invariant cidx != -1 ==> 0 <= cidx <= |s| && i < |c| && Split(s[..cidx], '.') == c[..|c| - i]
      invariant cidx != -1 && i > 0 ==> cidx < |s| && s[cidx] == '.' && Split(s[cidx + 1..], '.') == c[|c| - i..]
      invariant cidx != -1 && i == 0 ==> cidx == |s|
      invariant cidx == -1 ==> Split(s, '.') == c
      decreases ridx - i
    {
      ghost var before := cidx;
      cidx := RFindDot(s, cidx);
      if cidx == -1 {
        assert '.' !in s[..before];
        SplitPlain(s[..before]);
      } else {
        StepBack(s, c, cidx, before, i);
      }
      i := i + 1;
    }
    if cidx == -1 {
      assert s[0..] == s;
    } else {
      assert i == ridx;
    }
    JoinOfSplit(s[cidx + 1..]);
    pName := DotsToUnderscores(s[cidx + 1..]);
  }

  lemma CutAt(s: string, lo: nat, mid: nat, hi: nat)
    requires lo <= mid < hi <= |s|
    ensures s[lo..hi] == s[lo..mid] + [s[mid]] + s[mid + 1..hi]
  {
    var t := s[lo..mid] + [s[mid]] + s[mid + 1..hi];
    assert forall k :: 0 <= k < mid - lo ==> s[lo..mid][k] == s[lo + k] == s[lo..hi][k];
    forall k | 0 <= k < hi - lo
      ensures s[lo..hi][k] == t[k]
    {
      if mid - lo < k { assert t[k] == s[mid + 1..hi][k - (mid - lo) - 1]; }
    }
  }

  lemma TokenBefore(s: string, c: seq<string>, cidx: nat, before: nat, i: nat)
    requires cidx < before <= |s| && s[cidx] == '.' && forall k :: cidx < k < before ==> s[k] != '.'
    requires i < |c| && Split(s[..before], '.') == c[..|c| - i]
    ensures i + 1 < |c|
    ensures Split(s[..cidx], '.') == c[..|c| - i - 1] && s[cidx + 1..before] == c[|c| - i - 1]
  {
    hide Split;
    var t := s[cidx + 1..before];
    assert '.' !in t;
    CutAt(s, 0, cidx, before);
    assert s[..before] == s[..cidx] + "." + t;
    SplitAtDot(s[..cidx], t);
    SplitPlain(t);
    assert c[..|c| - i] == Split(s[..cidx], '.') + [t];
    assert c[|c| - i - 1] == c[..|c| - i][|c| - i - 1] == t;
    assert c[..|c| - i - 1] == c[..|c| - i][..|c| - i - 1];
  }

  lemma StepBack(s: string, c: seq<string>, cidx: nat, before: nat, i: nat)
    requires cidx < before <= |s| && s[cidx] == '.' && forall k :: cidx < k < before ==> s[k] != '.'
    requires i < |c| && Split(s[..before], '.') == c[..|c| - i]
    requires if i == 0 then before == |s|
             else before < |s| && s[before] == '.' && Split(s[before + 1..], '.') == c[|c| - i..]
    ensures i + 1 < |c|
    ensures Split(s[..cidx], '.') == c[..|c| - i - 1]
    ensures Split(s[cidx + 1..], '.') == c[|c| - i - 1..]
  {
    hide Split;
    TokenBefore(s, c, cidx, before, i);
    var t := s[cidx + 1..before];
    assert '.' !in t;
    SplitPlain(t);
    if i == 0 {
      assert s[cidx + 1..] == t;
    } else {
      CutAt(s, cidx + 1, before, |s|);
      assert s[cidx + 1..] == t + "." + s[before + 1..];
      SplitAtDot(t, s[before + 1..]);
    }
    assert c[|c| - i - 1..] == [t] + c[|c| - i..];
  }

  // ---------- One pass at a given depth: _build_names ----------

  function ShortNames(names: seq<string>, ridx: nat): seq<string> {
    seq(|names|, i requires 0 <= i < |names| => ShortName(names[i], ridx))
  }

  /** Which names have no further component to add at depth `ridx`. */
  function AtEnd(names: seq<string>, ridx: nat): seq<bool> {
    seq(|names|, i requires 0 <= i < |names| => |Components(names[i])| <= ridx)
  }

  function Named(names: seq<string>, ridx: nat): map<string, string> {
    map name | name in names :: ShortName(name, ridx)
  }

  function Elements(p: seq<string>): set<string> { set x | x in p }

  /** The pass finds the i-th name taken, by the caller's set or by an earlier name. */
  predicate Taken(p: seq<string>, collide: set<string>, i: nat)
    requires i < |p|
  {
    p[i] in collide || p[i] in p[..i]
  }

  ghost predicate AnyTaken(p: seq<string>, collide: set<string>, n: nat)
    requires n <= |p|
  {
    exists i :: 0 <= i < n && Taken(p, collide, i)
  }

  ghost predicate AnyTakenAtEnd(p: seq<string>, ends: seq<bool>, collide: set<string>, n: nat)
    requires n <= |p| == |ends|
  {
    exists i :: 0 <= i < n && ends[i] && Taken(p, collide, i)
  }

  /** The names at depth `ridx` are pairwise distinct and avoid `collide`. */
  ghost predicate Good(names: seq<string>, collide: set<string>, ridx: nat) {
    !AnyTaken(ShortNames(names, ridx), collide, |names|)
  }

  /** Some name is taken that has no further component to add. */
  ghost predicate FullClash(names: seq<string>, collide: set<string>, ridx: nat) {
    AnyTakenAtEnd(ShortNames(names, ridx), AtEnd(names, ridx), collide, |names|)
  }

  ghost predicate PairwiseDistinct(p: seq<string>) {
    forall i, j :: 0 <= i < j < |p| ==> p[i] != p[j]
  }

  lemma GoodMeans(p: seq<string>, collide: set<string>)
    ensures !AnyTaken(p, collide, |p|) <==> PairwiseDistinct(p) && Elements(p) !! collide
  {
    if !AnyTaken(p, collide, |p|) {
      forall i, j | 0 <= i < j < |p|
        ensures p[i] != p[j]
      {
        assert !Taken(p, collide, j);
        assert p[..j][i] == p[i];
      }
      forall x | x in p
        ensures x !in collide
      {
        var i :| 0 <= i < |p| && p[i] == x;
        assert !Taken(p, collide, i);
      }
    }
    if PairwiseDistinct(p) && Elements(p) !! collide {
      forall i | 0 <= i < |p|
        ensures !Taken(p, collide, i)
      {
        assert p[i] in Elements(p);
      }
    }
  }

  method BuildNames(names: seq<string>, pNames0: map<string, string>, collide: set<string>, ridx: nat)
    returns (collision: int, pNames: map<string, string>, curCollide: set<string>)
    requires 1 <= ridx
    ensures pNames == pNames0 + Named(names, ridx)
    ensures curCollide == collide + Elements(ShortNames(names, ridx))
    ensures collision == 0 <==> Good(names, collide, ridx)
    ensures collision == -2 <==> FullClash(names, collide, ridx)
    ensures -2 <= collision <= 0
  {
    hide ShortName, Named;
    ghost var p, ends := ShortNames(names, ridx), AtEnd(names, ridx);
    collision, pNames, curCollide := 0, pNames0, collide;
    NamedNone(pNames0, ridx);
    for n := 0 to |names|
      invariant pNames == pNames0 + Named(names[..n], ridx)
      invariant curCollide == collide + Elements(p[..n])
      invariant -2 <= collision <= 0
      invariant collision == 0 <==> !AnyTaken(p, collide, n)
      invariant collision == -2 <==> AnyTakenAtEnd(p, ends, collide, n)
    {
      var name := names[n];
      var pName, cidx := Shorten(name, ridx);
      NamedAppend(pNames0, names, ridx, n);
      ElementsAppend(collide, p, n);
      OneMoreTaken(p, ends, collide, n);
      pNames := pNames[name := pName];
      if pName in curCollide {
        if cidx == -1 {
          collision := -2;
        }
        if collision == 0 {
          collision := -1;
        }
      }
      curCollide := curCollide + {pName};
    }
    assert names[..|names|] == names && p[..|p|] == p;
  }

  lemma NamedNone(m: map<string, string>, ridx: nat)
    ensures m + Named([], ridx) == m
  {
  }

  lemma NamedAppend(m: map<string, string>, names: seq<string>, ridx: nat, n: nat)
    requires n < |names|
    ensures m + Named(names[..n + 1], ridx) == (m + Named(names[..n], ridx))[names[n] := ShortName(names[n], ridx)]
  {
    hide ShortName;
    var before, last := names[..n], names[n];
    assert names[..n + 1] == before + [last];
    assert Named(before + [last], ridx) == Named(before, ridx)[last := ShortName(last, ridx)];
  }

  lemma ElementsAppend(s: set<string>, p: seq<string>, n: nat)
    requires n < |p|
    ensures s + Elements(p[..n + 1]) == s + Elements(p[..n]) + {p[n]}
  {
    assert p[..n + 1] == p[..n] + [p[n]];
  }

  lemma OneMoreTaken(p: seq<string>, ends: seq<bool>, collide: set<string>, n: nat)
    requires n < |p| == |ends|
    ensures Taken(p, collide, n) <==> p[n] in collide + Elements(p[..n])
    ensures AnyTaken(p, collide, n + 1) <==> AnyTaken(p, collide, n) || Taken(p, collide, n)
    ensures AnyTakenAtEnd(p, ends, collide, n + 1) <==>
            AnyTakenAtEnd(p, ends, collide, n) || (ends[n] && Taken(p, collide, n))
  {
  }

  // ---------- The search for a depth: _make_param_names ----------

  /** The depth the search ends with, and whether the names are good there.  The code hands on
      `Ridx()`, which is one more than the depth used when it gave up. */
  datatype Outcome = Found(depth: nat) | GaveUp(depth: nat) {
    function Ridx(): nat { if Found? then depth else depth + 1 }
  }

  function Max(a: nat, b: nat): nat { if a < b then b else a }

  /** The loop, for any test of success and any test for breaking off; from `bound` on a pass
      that does not succeed breaks off. */
  ghost function SearchOn(good: nat -> bool, stops: nat -> bool, bound: nat, r: nat): (o: Outcome)
    requires forall k: nat :: bound <= k && !good(k) ==> stops(k)
    ensures r <= o.depth <= Max(r, bound)
    decreases bound + 1 - r
  {
    if good(r) then Found(r)
    else if stops(r) then GaveUp(r)
    else SearchOn(good, stops, bound, r + 1)
  }

  lemma {:induction false} SearchOnIsSound(good: nat -> bool, stops: nat -> bool, bound: nat, r: nat)
    requires forall k: nat :: bound <= k && !good(k) ==> stops(k)
    ensures var o := SearchOn(good, stops, bound, r);
            if o.Found? then good(o.depth) else !good(o.depth) && stops(o.depth)
    ensures forall k: nat :: r <= k < SearchOn(good, stops, bound, r).depth ==> !good(k) && !stops(k)
    decreases bound + 1 - r
  {
    if !good(r) && !stops(r) {
      SearchOnIsSound(good, stops, bound, r + 1);
    }
  }

  function Longest(names: seq<string>): (n: nat)
    ensures forall i :: 0 <= i < |names| ==> |Components(names[i])| <= n
  {
    if names == [] then 0 else Max(|Components(names[0])|, Longest(names[1..]))
  }

  ghost function GoodAt(names: seq<string>, collide: set<string>): nat -> bool {
    (r: nat) => Good(names, collide, r)
  }

  /** A bad pass breaks off the loop at depth 20 or more if a full clash was seen. */
  ghost function StopsAt(names: seq<string>, collide: set<string>): nat -> bool {
    (r: nat) => MAX_DEPTH < r + 1 && FullClash(names, collide, r)
  }

  function Bound(names: seq<string>): nat { Max(Longest(names), MAX_DEPTH) }

  lemma BadAtFullDepthStops(names: seq<string>, collide: set<string>)
    ensures forall r: nat :: Bound(names) <= r && !GoodAt(names, collide)(r) ==> StopsAt(names, collide)(r)
  {
    forall r: nat | Bound(names) <= r && !Good(names, collide, r)
      ensures FullClash(names, collide, r)
    {
      var i :| 0 <= i < |names| && Taken(ShortNames(names, r), collide, i);
      assert AtEnd(names, r)[i];
    }
  }

  ghost function Search(names: seq<string>, collide: set<string>, start: nat): (o: Outcome)
    ensures start <= o.depth <= Max(start, Bound(names))
  {
    BadAtFullDepthStops(names, collide);
    SearchOn(GoodAt(names, collide), StopsAt(names, collide), Bound(names), start)
  }

  lemma SearchIsSound(names: seq<string>, collide: set<string>, start: nat)
    ensures var o := Search(names, collide, start);
            && (o.Found? <==> Good(names, collide, o.depth))
            && (o.GaveUp? ==> MAX_DEPTH <= o.depth && FullClash(names, collide, o.depth))
    ensures forall r: nat :: start <= r < Search(names, collide, start).depth ==> !GoodAt(names, collide)(r)
    ensures forall r: nat :: start <= r < Search(names, collide, start).depth ==> !StopsAt(names, collide)(r)
  {
    BadAtFullDepthStops(names, collide);
    SearchOnIsSound(GoodAt(names, collide), StopsAt(names, collide), Bound(names), start);
  }

  method MakeParamNames(names: seq<string>, collide: set<string>, start: nat)
    returns (pNames: map<string, string>, curCollide: set<string>, ridx: nat)
    requires 1 <= start
    ensures ridx == Search(names, collide, start).Ridx()
    ensures pNames == Named(names, Search(names, collide, start).depth)
    ensures curCollide == collide + Elements(ShortNames(names, Search(names, collide, start).depth))
  {
    hide ShortName, Named, FullClash, Good;
    ghost var o := Search(names, collide, start);
    SearchIsSound(names, collide, start);
    ridx := start;
    var sts;
    sts, pNames, curCollide := BuildNames(names, map[], collide, ridx);
    while sts < 0
      invariant start <= ridx <= o.depth
      invariant pNames == Named(names, ridx)
      invariant curCollide == collide + Elements(ShortNames(names, ridx))
      invariant sts >= 0 <==> GoodAt(names, collide)(ridx)
      invariant sts == -2 <==> FullClash(names, collide, ridx)
      decreases o.depth - ridx, sts < 0
    {
      ridx := ridx + 1;
      if ridx > MAX_DEPTH && sts == -2 {
        assert StopsAt(names, collide)(ridx - 1);
        break;
      }
      sts, pNames, curCollide := BuildNames(names, map[], collide, ridx);
    }
  }

  /** The search succeeds exactly when some depth is good and no depth from 20 on that is tried
      before it shows a full clash. */
  lemma SearchSucceedsIff(names: seq<string>, collide: set<string>, start: nat)
    ensures Search(names, collide, start).Found? <==>
            exists g: nat :: start <= g && Good(names, collide, g) &&
                        forall r: nat :: start <= r < g ==> !StopsAt(names, collide)(r)
  {
    hide Good, FullClash;
    var o := Search(names, collide, start);
    SearchIsSound(names, collide, start);
    if o.GaveUp? {
      forall g: nat | start <= g && Good(names, collide, g)
        ensures exists r: nat :: start <= r < g && StopsAt(names, collide)(r)
      {
        assert StopsAt(names, collide)(o.depth);
        assert GoodAt(names, collide)(g);
        assert o.depth < g;
      }
    }
  }

  lemma ShortAtFullDepth(name: string, ridx: nat)
    requires |Components(name)| <= ridx
    ensures ShortName(name, ridx) == FlatName(name)
  {
    assert Components(name)[0..] == Components(name);
  }

  /** Names good at the least good depth: pairwise distinct and disjoint from the names taken. */
  lemma FoundNamesAreDistinct(names: seq<string>, collide: set<string>, start: nat)
    requires Search(names, collide, start).Found?
    ensures var p := ShortNames(names, Search(names, collide, start).depth);
            PairwiseDistinct(p) && Elements(p) !! collide
  {
    hide ShortName;
    SearchIsSound(names, collide, start);
    GoodMeans(ShortNames(names, Search(names, collide, start).depth), collide);
  }

  // ---------- Keys and data together: _make_core_method_strs ----------

  datatype Core = Core(key: Outcome, data: Outcome, suffixed: bool)

  function KeyName(c: Core, name: string): string {
    ShortName(name, c.key.depth) + if c.suffixed then "_key" else ""
  }

  function DataName(c: Core, name: string): string {
    ShortName(name, c.data.depth) + if c.suffixed then "_data" else ""
  }

  function KeyNames(c: Core, keys: seq<string>): map<string, string> {
    map name | name in keys :: KeyName(c, name)
  }

  function DataNames(c: Core, data: seq<string>): map<string, string> {
    map name | name in data :: DataName(c, name)
  }

  ghost function KeySearch(keys: seq<string>, start: nat): Outcome { Search(keys, {}, start) }

  /** The data search starts at the depth the key search handed on and avoids the key names. */
  ghost function DataSearch(keys: seq<string>, data: seq<string>, key: Outcome): Outcome {
    Search(data, Elements(ShortNames(keys, key.depth)), key.Ridx())
  }

  ghost function Align(keys: seq<string>, data: seq<string>, key: Outcome, tries: nat): Core
    requires tries < MAX_TRIES
    decreases MAX_TRIES - tries
  {
    var d := DataSearch(keys, data, key);
    if key.Ridx() == d.Ridx() then Core(key, d, false)
    else
      var key' := KeySearch(keys, d.Ridx());
      if tries + 1 == MAX_TRIES then Core(key', DataSearch(keys, data, key'), true)
      else Align(keys, data, key', tries + 1)
  }

  ghost function CoreNames(keys: seq<string>, data: seq<string>): Core {
    Align(keys, data, KeySearch(keys, 1), 0)
  }

  /** Key names from depth `start`, then data names that avoid them from the depth reached. */
  method NameBoth(keys: seq<string>, data: seq<string>, start: nat)
    returns (keyNames: map<string, string>, dataNames: map<string, string>, kRidx: nat, dRidx: nat)
    requires 1 <= start
    ensures 1 <= kRidx == KeySearch(keys, start).Ridx()
    ensures 1 <= dRidx == DataSearch(keys, data, KeySearch(keys, start)).Ridx()
    ensures keyNames == Named(keys, KeySearch(keys, start).depth)
    ensures dataNames == Named(data, DataSearch(keys, data, KeySearch(keys, start)).depth)
  {
    hide ShortName, Named, ShortNames, Elements;
    var collide, ignored;
    keyNames, collide, kRidx := MakeParamNames(keys, {}, start);
    assert collide == Elements(ShortNames(keys, KeySearch(keys, start).depth));
    dataNames, ignored, dRidx := MakeParamNames(data, collide, kRidx);
  }

  method AddSuffix(names: map<string, string>, suffix: string) returns (r: map<string, string>)
    ensures r == map name | name in names :: names[name] + suffix
  {
    r := names;
    var left := names.Keys;
    while left != {}
      invariant left <= names.Keys
      invariant r == map name | name in names :: if name in left then names[name] else names[name] + suffix
      decreases left
    {
      var name :| name in left;
      r := r[name := r[name] + suffix];
      left := left - {name};
    }
  }

  /** The loop that brings keys and data to the same depth, and its fallback. */
  method MakeCoreNames(keys: seq<string>, data: seq<string>)
    returns (keyNames: map<string, string>, dataNames: map<string, string>)
    ensures keyNames == KeyNames(CoreNames(keys, data), keys)
    ensures dataNames == DataNames(CoreNames(keys, data), data)
  {
    hide ShortName, Named, KeyNames, DataNames, KeySearch, DataSearch;
    ghost var goal, start := CoreNames(keys, data), 1;
    var kRidx, dRidx;
    keyNames, dataNames, kRidx, dRidx := NameBoth(keys, data, 1);
    var tries := 0;
    while kRidx != dRidx
      invariant 0 <= tries < MAX_TRIES && 1 <= dRidx
      invariant goal == Align(keys, data, KeySearch(keys, start), tries)
      invariant kRidx == KeySearch(keys, start).Ridx()
      invariant dRidx == DataSearch(keys, data, KeySearch(keys, start)).Ridx()
      invariant keyNames == Named(keys, KeySearch(keys, start).depth)
      invariant dataNames == Named(data, DataSearch(keys, data, KeySearch(keys, start)).depth)
      decreases MAX_TRIES - tries
    {
      start := dRidx;
      keyNames, dataNames, kRidx, dRidx := NameBoth(keys, data, dRidx);
      tries := tries + 1;
      if tries >= MAX_TRIES {
        FinalNames(keys, data, goal);
        keyNames := AddSuffix(keyNames, "_key");
        dataNames := AddSuffix(dataNames, "_data");
        return;
      }
    }
    FinalNames(keys, data, goal);
  }

  lemma FinalNames(keys: seq<string>, data: seq<string>, c: Core)
    ensures var k, d := Named(keys, c.key.depth), Named(data, c.data.depth);
            && KeyNames(c, keys) == (if c.suffixed then map name | name in k :: k[name] + "_key" else k)
            && DataNames(c, data) == (if c.suffixed then map name | name in d :: d[name] + "_data" else d)
  {
    hide ShortName;
    if !c.suffixed {
      forall name
        ensures KeyName(c, name) == ShortName(name, c.key.depth)
        ensures DataName(c, name) == ShortName(name, c.data.depth)
      {
        assert ShortName(name, c.key.depth) + "" == ShortName(name, c.key.depth);
        assert ShortName(name, c.data.depth) + "" == ShortName(name, c.data.depth);
      }
    }
  }

  // ---------- Extensions of a name ----------

  lemma {:induction false} SanitiseAppend(a: string, b: string)
    ensures Sanitise(a + b) == Sanitise(a) + Sanitise(b)
  {
    if a == "" {
      assert a + b == b;
    } else {
      assert (a + b)[1..] == a[1..] + b;
      SanitiseAppend(a[1..], b);
    }
  }

  lemma ComponentsOfExtension(z: string, c: string)
    ensures Components(z + "." + c) == Components(z) + Components(c)
  {
    SanitiseAppend(z + ".", c);
    SanitiseAppend(z, ".");
    assert Sanitise(".") == ".";
    assert Sanitise(z + "." + c) == Sanitise(z) + "." + Sanitise(c);
    SplitAtDot(Sanitise(z), Sanitise(c));
  }

  /** A name and its extension look alike up to the depth of the shorter one, and differ one
      component deeper. */
  lemma ShortOfExtension(z: string, c: string, r: nat)
    ensures r <= |Components(c)| ==> ShortName(z + "." + c, r) == ShortName(c, r)
    ensures r == |Components(c)| + 1 ==> ShortName(z + "." + c, r) != ShortName(c, r)
  {
    hide Components;
    ComponentsOfExtension(z, c);
    if r <= |Components(c)| {
      LastOfBoth(Components(z), Components(c), r);
    } else if r == |Components(c)| + 1 {
      ShortAtFullDepth(c, r);
      OneMoreComponent(Components(z), Components(c));
    }
  }

  lemma LastOfBoth(a: seq<string>, b: seq<string>, r: nat)
    requires r <= |b|
    ensures LastN(a + b, r) == LastN(b, r)
  {
    assert (a + b)[|a + b| - r..] == b[|b| - r..];
  }

  lemma OneMoreComponent(a: seq<string>, b: seq<string>)
    requires a != [] && b != []
    ensures Join(LastN(a + b, |b| + 1), "_") != Join(b, "_")
  {
    var x := a[|a| - 1];
    assert (a + b)[|a + b| - |b| - 1..] == [x] + b;
    assert ([x] + b)[1..] == b;
    assert |Join([x] + b, "_")| == |x| + 1 + |Join(b, "_")|;
  }

  // ---------- Distinct base names ----------

  ghost predicate KeysApart(keys: seq<string>, c: Core) {
    forall i, j :: 0 <= i < j < |keys| ==> KeyName(c, keys[i]) != KeyName(c, keys[j])
  }

  ghost predicate DataApart(data: seq<string>, c: Core) {
    forall i, j :: 0 <= i < j < |data| ==> DataName(c, data[i]) != DataName(c, data[j])
  }

  ghost predicate NeverMeet(keys: seq<string>, data: seq<string>, c: Core) {
    forall i, j :: 0 <= i < |keys| && 0 <= j < |data| ==> KeyName(c, keys[i]) != DataName(c, data[j])
  }

  lemma DepthsGrow(keys: seq<string>, data: seq<string>, start: nat)
    ensures var key := KeySearch(keys, start);
            start <= key.depth && key.Ridx() <= DataSearch(keys, data, key).depth
  {
  }

  /** What the loop ends with is a pair of searches from some depth, over 50 if it gave up. */
  lemma {:induction false} AlignedFrom(keys: seq<string>, data: seq<string>, start: nat, tries: nat) returns (s: nat)
    requires tries < MAX_TRIES && tries < start
    ensures start <= s
    ensures var c := Align(keys, data, KeySearch(keys, start), tries);
            && c.key == KeySearch(keys, s) && c.data == DataSearch(keys, data, c.key)
            && (if c.suffixed then MAX_TRIES < s else c.key.Ridx() == c.data.Ridx())
    decreases MAX_TRIES - tries
  {
    hide KeySearch, DataSearch;
    var key := KeySearch(keys, start);
    var d := DataSearch(keys, data, key);
    DepthsGrow(keys, data, start);
    s := if key.Ridx() == d.Ridx() then start else d.Ridx();
    if key.Ridx() != d.Ridx() && tries + 1 < MAX_TRIES {
      s := AlignedFrom(keys, data, d.Ridx(), tries + 1);
    }
  }

  /** A data search that gave up hands on a greater depth than the keys': equal depths mean that
      the data names were found. */
  lemma EqualDepthsMeanFound(keys: seq<string>, data: seq<string>, key: Outcome)
    requires DataSearch(keys, data, key).Ridx() == key.Ridx()
    ensures DataSearch(keys, data, key).Found?
  {
  }

  lemma SuffixInjective(a: string, b: string, suffix: string)
    ensures a + suffix == b + suffix <==> a == b
  {
    if a + suffix == b + suffix {
      assert a == (a + suffix)[..|a|] && b == (b + suffix)[..|b|];
    }
  }

  lemma KeysApartIff(keys: seq<string>, c: Core)
    ensures KeysApart(keys, c) <==> PairwiseDistinct(ShortNames(keys, c.key.depth))
  {
    hide ShortName;
    var p := ShortNames(keys, c.key.depth);
    forall i, j | 0 <= i < j < |keys|
      ensures KeyName(c, keys[i]) == KeyName(c, keys[j]) <==> p[i] == p[j]
    {
      SuffixInjective(p[i], p[j], if c.suffixed then "_key" else "");
    }
  }

  lemma DataApartIff(data: seq<string>, c: Core)
    ensures DataApart(data, c) <==> PairwiseDistinct(ShortNames(data, c.data.depth))
  {
    hide ShortName;
    var p := ShortNames(data, c.data.depth);
    forall i, j | 0 <= i < j < |data|
      ensures DataName(c, data[i]) == DataName(c, data[j]) <==> p[i] == p[j]
    {
      SuffixInjective(p[i], p[j], if c.suffixed then "_data" else "");
    }
  }

  /** No key ever gets the name of a data field, whatever the field names are: even a key and a
      data field of the same name are kept apart. */
  lemma KeysNeverMeetData(keys: seq<string>, data: seq<string>)
    ensures NeverMeet(keys, data, CoreNames(keys, data))
  {
    hide ShortName, Align, KeySearch;
    var s := AlignedFrom(keys, data, 1, 0);
    var c := CoreNames(keys, data);
    var p, q := ShortNames(keys, c.key.depth), ShortNames(data, c.data.depth);
    if !c.suffixed {
      EqualDepthsMeanFound(keys, data, c.key);
      FoundNamesAreDistinct(data, Elements(p), c.key.Ridx());
    }
    forall i, j | 0 <= i < |keys| && 0 <= j < |data|
      ensures KeyName(c, keys[i]) != DataName(c, data[j])
    {
      if c.suffixed {
        assert (p[i] + "_key")[|p[i]| + 3] == 'y';
        assert (q[j] + "_data")[|q[j]| + 4] == 'a';
      } else {
        assert p[i] in Elements(p) && q[j] in Elements(q);
        assert p[i] + "" == p[i] && q[j] + "" == q[j];
      }
    }
  }

  // Conditions on the field names

  ghost predicate FlatDistinct(names: seq<string>) {
    forall i, j :: 0 <= i < j < |names| ==> FlatName(names[i]) != FlatName(names[j])
  }

  predicate AtMost(names: seq<string>, n: nat) {
    forall i :: 0 <= i < |names| ==> |Components(names[i])| <= n
  }

  /** No name, whole, is what is left of an earlier name at some depth from 20 on at which the
      loop takes the clash for final. */
  ghost predicate NoneSwallowed(names: seq<string>) {
    forall i, j, r: nat :: 0 <= j < i < |names| && MAX_DEPTH <= r && |Components(names[i])| <= r ==>
      ShortName(names[j], r) != FlatName(names[i])
  }

  lemma NoneSwallowedIff(names: seq<string>)
    ensures NoneSwallowed(names) <==> forall r: nat :: MAX_DEPTH <= r ==> !FullClash(names, {}, r)
  {
    hide ShortName, FlatName, Components;
    forall r: nat | MAX_DEPTH <= r && FullClash(names, {}, r)
      ensures !NoneSwallowed(names)
    {
      var p, ends := ShortNames(names, r), AtEnd(names, r);
      var i :| 0 <= i < |names| && ends[i] && Taken(p, {}, i);
      var j :| 0 <= j < i && p[..i][j] == p[i];
      ShortAtFullDepth(names[i], r);
    }
    if !NoneSwallowed(names) {
      var i, j, r: nat :| 0 <= j < i < |names| && MAX_DEPTH <= r && |Components(names[i])| <= r &&
                          ShortName(names[j], r) == FlatName(names[i]);
      SwallowedClashes(names, i, j, r);
    }
  }

  lemma SwallowedClashes(names: seq<string>, i: nat, j: nat, r: nat)
    requires j < i < |names| && |Components(names[i])| <= r && ShortName(names[j], r) == FlatName(names[i])
    ensures FullClash(names, {}, r)
  {
    hide ShortName, FlatName, Components;
    var p, ends := ShortNames(names, r), AtEnd(names, r);
    ShortAtFullDepth(names[i], r);
    assert p[..i][j] == p[i];
    assert ends[i] && Taken(p, {}, i);
  }

  lemma FlatAtDepth(names: seq<string>, r: nat)
    requires AtMost(names, r)
    ensures FlatDistinct(names) <==> PairwiseDistinct(ShortNames(names, r))
  {
    hide ShortName, FlatName, Components;
    var p := ShortNames(names, r);
    forall i | 0 <= i < |names|
      ensures p[i] == FlatName(names[i])
    {
      ShortAtFullDepth(names[i], r);
    }
  }

  /** For names of at most 20 components it is the same as being distinct once flattened. */
  lemma ShortNoneSwallowedIff(names: seq<string>)
    requires AtMost(names, MAX_DEPTH)
    ensures NoneSwallowed(names) <==> FlatDistinct(names)
    ensures !FlatDistinct(names) ==> FullClash(names, {}, MAX_DEPTH)
  {
    hide ShortName, FlatName, Components;
    if !FlatDistinct(names) {
      var j, i :| 0 <= j < i < |names| && FlatName(names[j]) == FlatName(names[i]);
      ShortAtFullDepth(names[j], MAX_DEPTH);
      SwallowedClashes(names, i, j, MAX_DEPTH);
      NoneSwallowedIff(names);
    } else {
      forall i, j, r: nat | 0 <= j < i < |names| && MAX_DEPTH <= r
        ensures ShortName(names[j], r) != FlatName(names[i])
      {
        ShortAtFullDepth(names[j], r);
      }
    }
  }

  /** At no depth over 50 at which some name has no further component do two names look alike. */
  ghost predicate ApartWhereStuck(names: seq<string>) {
    forall i, r: nat :: 0 <= i < |names| && MAX_TRIES < r && |Components(names[i])| <= r ==>
      PairwiseDistinct(ShortNames(names, r))
  }

  /** For names of at most 51 components it is the same as being distinct once flattened. */
  lemma ShortApartWhereStuckIff(names: seq<string>)
    requires AtMost(names, MAX_TRIES + 1)
    ensures ApartWhereStuck(names) <==> FlatDistinct(names)
  {
    hide Components, ShortName, FlatName;
    FlatAtDepth(names, MAX_TRIES + 1);
    if FlatDistinct(names) {
      forall r: nat | MAX_TRIES < r
        ensures PairwiseDistinct(ShortNames(names, r))
      {
        FlatAtDepth(names, r);
      }
    } else {
      assert 0 < |names| && |Components(names[0])| <= MAX_TRIES + 1;
    }
  }

  // They are enough

  lemma KeysStayApart(keys: seq<string>, data: seq<string>)
    requires NoneSwallowed(keys)
    ensures KeysApart(keys, CoreNames(keys, data))
  {
    hide ShortName, Align, NoneSwallowed, FullClash, Good;
    var s := AlignedFrom(keys, data, 1, 0);
    NoneSwallowedIff(keys);
    SearchIsSound(keys, {}, s);
    FoundNamesAreDistinct(keys, {}, s);
    KeysApartIff(keys, CoreNames(keys, data));
  }

  lemma SomeIsStuck(names: seq<string>, collide: set<string>, r: nat) returns (i: nat)
    requires FullClash(names, collide, r)
    ensures i < |names| && |Components(names[i])| <= r
  {
    i :| 0 <= i < |names| && AtEnd(names, r)[i] && Taken(ShortNames(names, r), collide, i);
  }

  lemma DataStaysApart(keys: seq<string>, data: seq<string>)
    requires ApartWhereStuck(data)
    ensures DataApart(data, CoreNames(keys, data))
  {
    hide ShortName, Components, Align, Good, FullClash;
    var s := AlignedFrom(keys, data, 1, 0);
    var c := CoreNames(keys, data);
    var taken := Elements(ShortNames(keys, c.key.depth));
    DataApartIff(data, c);
    if c.data.Found? {
      FoundNamesAreDistinct(data, taken, c.key.Ridx());
    } else {
      SearchIsSound(data, taken, c.key.Ridx());
      var i := SomeIsStuck(data, taken, c.data.depth);
    }
  }

  /** If no key is swallowed by an earlier one, and the data fields are apart where they are stuck,
      then all base names of the method are distinct across keys and data, whether the depths
      were matched or the fallback was taken.  For keys of at most 20 components and data fields
      of at most 51 the conditions are that they are distinct once flattened. */
  lemma AllBaseNamesDistinct(keys: seq<string>, data: seq<string>)
    requires NoneSwallowed(keys) && ApartWhereStuck(data)
    ensures var c := CoreNames(keys, data);
            KeysApart(keys, c) && DataApart(data, c) && NeverMeet(keys, data, c)
  {
    KeysStayApart(keys, data);
    DataStaysApart(keys, data);
    KeysNeverMeetData(keys, data);
  }

  // They are needed: data fields that drive the keys to a given depth

  /** A search that is bad and does not break off before `stop`, and ends there. */
  lemma SearchAt(names: seq<string>, collide: set<string>, start: nat, stop: nat)
    requires start <= stop
    requires forall r: nat :: start <= r < stop ==> !Good(names, collide, r)
    requires forall r: nat :: start <= r < stop && MAX_DEPTH <= r ==> !FullClash(names, collide, r)
    requires Good(names, collide, stop) || (MAX_DEPTH <= stop && FullClash(names, collide, stop))
    ensures Search(names, collide, start) == if Good(names, collide, stop) then Found(stop) else GaveUp(stop)
  {
    hide Good, FullClash;
    var o := Search(names, collide, start);
    SearchIsSound(names, collide, start);
    assert GoodAt(names, collide)(stop) <==> Good(names, collide, stop);
    assert StopsAt(names, collide)(stop) <==> MAX_DEPTH <= stop && FullClash(names, collide, stop);
    assert o.Found? ==> GoodAt(names, collide)(o.depth);
    assert o.GaveUp? ==> StopsAt(names, collide)(o.depth);
  }

  const SPECIAL: set<char> := {'$', '-', ':', '[', ']', '.'}

  /** Free of the characters that the naming treats specially. */
  predicate Plain(s: string) { forall x :: x in SPECIAL ==> x !in s }

  lemma {:induction false} SanitisePlain(s: string)
    requires Plain(s)
    ensures Sanitise(s) == s
  {
    if s != "" {
      assert s[0] in s && forall x :: x in s[1..] ==> x in s;
      SanitisePlain(s[1..]);
    }
  }

  lemma PlainName(s: string, r: nat)
    requires Plain(s) && 1 <= r
    ensures Components(s) == [s] && ShortName(s, r) == FlatName(s) == s
  {
    SanitisePlain(s);
    assert '.' in SPECIAL;
    SplitPlain(s);
    ShortAtFullDepth(s, r);
  }

  /** A name of `k` components that ends in `q`. */
  function Deep(q: string, k: nat): string {
    if k <= 1 then q else "z." + Deep(q, k - 1)
  }

  lemma OneMoreFront(x: string, c: string)
    requires Plain(x)
    ensures Components(x + "." + c) == [x] + Components(c)
    ensures FlatName(x + "." + c) == x + "_" + FlatName(c)
  {
    hide Components;
    ComponentsOfExtension(x, c);
    PlainName(x, 1);
    assert ([x] + Components(c))[1..] == Components(c);
  }

  lemma {:induction false} DeepName(q: string, k: nat)
    requires Plain(q) && 1 <= k
    ensures |Components(Deep(q, k))| == k && |q| <= |FlatName(Deep(q, k))|
  {
    hide Components, FlatName;
    if k == 1 {
      PlainName(q, 1);
    } else {
      DeepName(q, k - 1);
      assert "z." + Deep(q, k - 1) == "z" + "." + Deep(q, k - 1);
      OneMoreFront("z", Deep(q, k - 1));
    }
  }

  /** Two names that differ in the first of `r` components only. */
  function Twins(q: string, r: nat): seq<string>
    requires 2 <= r
  {
    ["x" + "." + Deep(q, r - 1), "y" + "." + Deep(q, r - 1)]
  }

  lemma TwinsAt(q: string, r: nat, k: nat)
    requires Plain(q) && 2 <= r && 1 <= k
    ensures var p := ShortNames(Twins(q, r), k); |p| == 2 && (p[0] == p[1] <==> k < r)
    ensures var p := ShortNames(Twins(q, r), k); r <= k ==> |q| < |p[0]| && |q| < |p[1]|
    ensures AtEnd(Twins(q, r), k) == [r <= k, r <= k]
  {
    hide Components, FlatName, ShortName;
    var c := Deep(q, r - 1);
    DeepName(q, r - 1);
    OneMoreFront("x", c);
    OneMoreFront("y", c);
    if k < r {
      ShortOfExtension("x", c, k);
      ShortOfExtension("y", c, k);
    } else {
      ShortAtFullDepth("x" + "." + c, k);
      ShortAtFullDepth("y" + "." + c, k);
      assert FlatName("x" + "." + c)[0] == 'x' && FlatName("y" + "." + c)[0] == 'y';
    }
  }

  lemma TwinsAreApart(q: string, r: nat)
    requires Plain(q) && 2 <= r
    ensures FlatDistinct(Twins(q, r)) && AtMost(Twins(q, r), r)
  {
    hide Components, ShortName;
    TwinsAt(q, r, r);
    var ends := AtEnd(Twins(q, r), r);
    assert ends[0] && ends[1];
    FlatAtDepth(Twins(q, r), r);
  }

  lemma TwinsPass(q: string, r: nat, collide: set<string>, k: nat)
    requires Plain(q) && 2 <= r && 1 <= k && forall x :: x in collide ==> |x| <= |q|
    ensures Good(Twins(q, r), collide, k) <==> r <= k
    ensures k < r ==> !FullClash(Twins(q, r), collide, k)
  {
    hide ShortName, Components, Twins;
    TwinsAt(q, r, k);
    var p := ShortNames(Twins(q, r), k);
    GoodMeans(p, collide);
    assert Elements(p) == {p[0], p[1]};
  }

  lemma {:induction false} LongerThanAll(p: seq<string>) returns (q: string)
    ensures Plain(q) && forall x :: x in p ==> |x| <= |q|
  {
    q := "";
    if p != [] {
      var q' := LongerThanAll(p[1..]);
      q := seq(Max(|p[0]|, |q'|), i => 'q');
      assert p == [p[0]] + p[1..];
    }
  }

  lemma WithoutData(keys: seq<string>)
    ensures var key := KeySearch(keys, 1);
            key.GaveUp? ==> CoreNames(keys, []) == Core(key, Found(key.Ridx()), false)
    ensures FlatDistinct([]) && AtMost([], MAX_DEPTH)
  {
    hide KeySearch;
    var key := KeySearch(keys, 1);
    var taken := Elements(ShortNames(keys, key.depth));
    assert Good([], taken, key.Ridx());
    SearchAt([], taken, key.Ridx(), key.Ridx());
  }

  lemma ClashIsBad(names: seq<string>, collide: set<string>, r: nat)
    requires FullClash(names, collide, r)
    ensures !Good(names, collide, r)
  {
  }

  /** Where a search from depth 1 ends if from some depth `r` on it would break off. */
  lemma EndsBefore(keys: seq<string>, r: nat)
    requires MAX_DEPTH <= r && FullClash(keys, {}, r) && KeySearch(keys, 1).Found?
    ensures KeySearch(keys, 1).depth < r
  {
    hide Good, FullClash;
    SearchIsSound(keys, {}, 1);
    ClashIsBad(keys, {}, r);
    assert StopsAt(keys, {})(r);
  }

  lemma GivenUpIsBad(keys: seq<string>)
    ensures KeySearch(keys, 1).GaveUp? ==> !Good(keys, {}, KeySearch(keys, 1).depth)
  {
    SearchIsSound(keys, {}, 1);
  }

  lemma GivenUpIsNotApart(keys: seq<string>, c: Core)
    requires !Good(keys, {}, c.key.depth)
    ensures !KeysApart(keys, c)
  {
    hide ShortName;
    GoodMeans(ShortNames(keys, c.key.depth), {});
    KeysApartIff(keys, c);
  }

  lemma TwinsFoundAt(q: string, r: nat, collide: set<string>, start: nat)
    requires Plain(q) && MAX_DEPTH <= r && 1 <= start && forall x :: x in collide ==> |x| <= |q|
    ensures Search(Twins(q, r), collide, start) == Found(Max(start, r))
  {
    hide Good, FullClash, Twins, Plain;
    var stop := Max(start, r);
    forall k: nat | start <= k <= stop
      ensures Good(Twins(q, r), collide, k) <==> r <= k
      ensures k < r ==> !FullClash(Twins(q, r), collide, k)
    {
      TwinsPass(q, r, collide, k);
    }
    SearchAt(Twins(q, r), collide, start, stop);
  }

  /** Unequal depths once, equal depths the second time. */
  lemma SecondTryAligns(keys: seq<string>, data: seq<string>, d: Outcome, key: Outcome, d': Outcome)
    requires d == DataSearch(keys, data, KeySearch(keys, 1)) && d.Ridx() != KeySearch(keys, 1).Ridx()
    requires key == KeySearch(keys, d.Ridx()) && d' == DataSearch(keys, data, key) && d'.Ridx() == key.Ridx()
    ensures CoreNames(keys, data) == Core(key, d', false)
  {
    hide KeySearch, DataSearch;
    assert Align(keys, data, key, 1) == Core(key, d', false);
  }

  lemma DrivenToDepth(keys: seq<string>, r: nat, data: seq<string>, q: string)
    requires MAX_DEPTH <= r && FullClash(keys, {}, r) && KeySearch(keys, 1).Found?
    requires Plain(q) && data == Twins(q, r)
    requires forall x :: x in Elements(ShortNames(keys, KeySearch(keys, 1).depth)) ==> |x| <= |q|
    requires forall x :: x in Elements(ShortNames(keys, r)) ==> |x| <= |q|
    ensures CoreNames(keys, data) == Core(GaveUp(r), Found(r + 1), false)
    ensures !Good(keys, {}, r)
  {
    hide Twins, Good, FullClash, ShortNames, Elements, Align, CoreNames, Plain;
    EndsBefore(keys, r);
    TwinsFoundAt(q, r, Elements(ShortNames(keys, KeySearch(keys, 1).depth)), KeySearch(keys, 1).depth);
    ClashIsBad(keys, {}, r);
    SearchAt(keys, {}, r, r);
    TwinsFoundAt(q, r, Elements(ShortNames(keys, r)), r + 1);
    SecondTryAligns(keys, data, Found(r), GaveUp(r), Found(r + 1));
  }

  /** If a key would be swallowed at depth `r`, there are data fields that let it happen. */
  lemma SwallowedKeysMeet(keys: seq<string>, r: nat) returns (data: seq<string>)
    requires MAX_DEPTH <= r && FullClash(keys, {}, r)
    ensures !KeysApart(keys, CoreNames(keys, data))
    ensures r == MAX_DEPTH ==> FlatDistinct(data) && AtMost(data, MAX_DEPTH)
  {
    hide ShortName, ShortNames, Components, FlatName, Good, FullClash;
    hide KeysApart, KeySearch, CoreNames, Twins, FlatDistinct, AtMost;
    var key := KeySearch(keys, 1);
    if key.GaveUp? {
      data := [];
      GivenUpIsBad(keys);
      WithoutData(keys);
    } else {
      var near, far := ShortNames(keys, key.depth), ShortNames(keys, r);
      var q := LongerThanAll(near + far);
      data := Twins(q, r);
      DrivenToDepth(keys, r, data, q);
      if r == MAX_DEPTH {
        TwinsAreApart(q, r);
      }
    }
    GivenUpIsNotApart(keys, CoreNames(keys, data));
  }

  /** Exactly when no key is swallowed by an earlier one are the key names distinct whatever the
      data fields are. */
  lemma KeyNamesApartIff(keys: seq<string>)
    ensures (forall data :: KeysApart(keys, CoreNames(keys, data))) <==> NoneSwallowed(keys)
  {
    hide *;
    NoneSwallowedIff(keys);
    if NoneSwallowed(keys) {
      forall data
        ensures KeysApart(keys, CoreNames(keys, data))
      {
        KeysStayApart(keys, data);
      }
    } else {
      var r: nat :| MAX_DEPTH <= r && FullClash(keys, {}, r);
      var data := SwallowedKeysMeet(keys, r);
    }
  }

  /** For keys of at most 20 components: exactly when they are distinct once flattened; data fields
      that are themselves blameless suffice to make the others fail. */
  lemma ShortKeyNamesApartIff(keys: seq<string>)
    requires AtMost(keys, MAX_DEPTH)
    ensures (forall data :: KeysApart(keys, CoreNames(keys, data))) <==> FlatDistinct(keys)
    ensures (forall data :: FlatDistinct(data) && AtMost(data, MAX_DEPTH) ==> KeysApart(keys, CoreNames(keys, data)))
            <==> FlatDistinct(keys)
  {
    hide *;
    ShortNoneSwallowedIff(keys);
    KeyNamesApartIff(keys);
    if !FlatDistinct(keys) {
      var data := SwallowedKeysMeet(keys, MAX_DEPTH);
    }
  }

  // They are needed: keys that take every short form of a data field

  lemma {:induction false} SanitiseIsFree(s: string)
    ensures forall x :: x in SPECIAL && x != '.' ==> x !in Sanitise(s)
  {
    if s != "" {
      SanitiseIsFree(s[1..]);
    }
  }

  lemma ShortIsPlain(name: string, r: nat)
    ensures Plain(ShortName(name, r))
  {
    hide ShortName, Sanitise, Split;
    var s := Sanitise(name);
    SanitiseIsFree(name);
    SplitIsFree(s, '.');
    forall x | x in SPECIAL
      ensures x !in ShortName(name, r)
    {
      if x != '.' {
        SplitKeepsFree(s, '.', x);
      }
      ShortIsFree(name, r, x);
    }
  }

  lemma ShortIsFree(name: string, r: nat, x: char)
    requires x in SPECIAL && forall t :: t in Split(Sanitise(name), '.') ==> x !in t
    ensures x !in ShortName(name, r)
  {
    JoinFree(LastN(Components(name), r), "_", x);
  }

  lemma {:induction false} ShortGrows(name: string, a: nat, b: nat)
    requires 1 <= a < b <= |Components(name)|
    ensures |ShortName(name, a)| < |ShortName(name, b)|
    decreases b
  {
    hide Components;
    var c := Components(name);
    assert LastN(c, b)[1..] == LastN(c, b - 1);
    if a < b - 1 {
      ShortGrows(name, a, b - 1);
    }
  }

  /** Every short form of a name. */
  function ShortForms(name: string): seq<string> {
    seq(|Components(name)|, (k: nat) => ShortName(name, k + 1))
  }

  lemma ShortFormsStay(name: string, r: nat)
    requires 1 <= r
    ensures ShortNames(ShortForms(name), r) == ShortForms(name)
    ensures FlatDistinct(ShortForms(name)) && AtMost(ShortForms(name), MAX_DEPTH)
  {
    hide ShortName, FlatName, Components;
    var keys := ShortForms(name);
    forall k | 0 <= k < |keys|
      ensures ShortName(keys[k], r) == FlatName(keys[k]) == keys[k] && |Components(keys[k])| == 1
    {
      ShortIsPlain(name, k + 1);
      PlainName(keys[k], r);
    }
    forall i, j | 0 <= i < j < |keys|
      ensures keys[i] != keys[j]
    {
      ShortGrows(name, i + 1, j + 1);
    }
  }

  lemma ShortFormsHoldAll(name: string, r: nat)
    requires 1 <= r
    ensures ShortName(name, r) in Elements(ShortForms(name))
  {
    hide ShortName, Components;
    var forms, n := ShortForms(name), |Components(name)|;
    if r <= n {
      assert forms[r - 1] == ShortName(name, r);
    } else {
      ShortAtFullDepth(name, r);
      ShortAtFullDepth(name, n);
      assert forms[n - 1] == ShortName(name, n);
    }
  }

  lemma DataNeverFound(data: seq<string>, key: Outcome)
    requires data != [] && 1 <= key.depth
    ensures DataSearch(ShortForms(data[0]), data, key).GaveUp?
  {
    hide ShortName, Components, FullClash, ShortForms;
    ShortFormsStay(data[0], key.depth);
    var taken := Elements(ShortForms(data[0]));
    var o := Search(data, taken, key.Ridx());
    SearchIsSound(data, taken, key.Ridx());
    ShortFormsHoldAll(data[0], o.depth);
    assert Taken(ShortNames(data, o.depth), taken, 0);
  }

  /** For data fields of at most 51 components: their names are distinct whatever the keys are
      exactly when they are distinct once flattened; blameless keys suffice for the others. */
  lemma DataNamesApartIff(data: seq<string>)
    requires AtMost(data, MAX_TRIES + 1)
    ensures (forall keys :: DataApart(data, CoreNames(keys, data))) <==> FlatDistinct(data)
    ensures (forall keys :: FlatDistinct(keys) && AtMost(keys, MAX_DEPTH) ==> DataApart(data, CoreNames(keys, data)))
            <==> FlatDistinct(data)
  {
    hide *;
    ShortApartWhereStuckIff(data);
    if FlatDistinct(data) {
      forall keys
        ensures DataApart(data, CoreNames(keys, data))
      {
        DataStaysApart(keys, data);
      }
    } else {
      SomeAreThere(data);
      ShortFormsStay(data[0], 1);
      FlatDataMeet(data);
    }
  }

  lemma SomeAreThere(data: seq<string>)
    requires !FlatDistinct(data)
    ensures data != []
  {
  }

  lemma FlatDataMeet(data: seq<string>)
    requires data != [] && AtMost(data, MAX_TRIES + 1) && !FlatDistinct(data)
    ensures !DataApart(data, CoreNames(ShortForms(data[0]), data))
  {
    hide ShortName, Components, Align, FlatDistinct, ShortForms;
    var keys := ShortForms(data[0]);
    var s := AlignedFrom(keys, data, 1, 0);
    var c := CoreNames(keys, data);
    DataNeverFound(data, c.key);
    if !c.suffixed {
      EqualDepthsMeanFound(keys, data, c.key);
    }
    FlatAtDepth(data, c.data.depth);
    DataApartIff(data, c);
  }

  // ---------- Order, and an example ----------

  /** With a name and an extension of it the order decides: listed after the extension, the
      name is told apart exactly when it has fewer than 20 components; listed before, always. */
  lemma ExtensionToldApartIff(z: string, c: string)
    ensures Search([z + "." + c, c], {}, 1).Found? <==> |Components(c)| < 20
    ensures Search([c, z + "." + c], {}, 1).Found?
  {
    ExtensionFirst(z, c);
    ExtensionLast(z, c);
  }

  lemma ExtensionFirst(z: string, c: string)
    ensures Search([z + "." + c, c], {}, 1).Found? <==> |Components(c)| < MAX_DEPTH
  {
    hide ShortName, Components, Good, FullClash;
    var n, names := |Components(c)|, [z + "." + c, c];
    PairGoodIff(z, c, names);
    PairFullClash(z, c);
    SearchIsSound(names, {}, 1);
    assert GoodAt(names, {})(n + 1) <==> Good(names, {}, n + 1);
    assert StopsAt(names, {})(n) <==> MAX_DEPTH <= n && FullClash(names, {}, n);
  }

  lemma ExtensionLast(z: string, c: string)
    ensures Search([c, z + "." + c], {}, 1).Found?
  {
    hide ShortName, Components, Good, FullClash;
    var n, names := |Components(c)|, [c, z + "." + c];
    PairGoodIff(z, c, names);
    PairFullClash(z, c);
    SearchIsSound(names, {}, 1);
    assert GoodAt(names, {})(n + 1) <==> Good(names, {}, n + 1);
  }

  lemma PairGoodIff(z: string, c: string, names: seq<string>)
    requires names == [z + "." + c, c] || names == [c, z + "." + c]
    ensures forall r: nat :: r <= |Components(c)| ==> !Good(names, {}, r)
    ensures Good(names, {}, |Components(c)| + 1)
  {
    hide ShortName, Components;
    forall r: nat | r <= |Components(c)| + 1
      ensures Good(names, {}, r) <==> r == |Components(c)| + 1
    {
      ShortOfExtension(z, c, r);
      var p := ShortNames(names, r);
      GoodMeans(p, {});
      assert |p| == 2 && (PairwiseDistinct(p) <==> p[0] != p[1]);
    }
  }

  lemma PairFullClash(z: string, c: string)
    ensures FullClash([z + "." + c, c], {}, |Components(c)|)
    ensures forall r: nat :: r <= |Components(c)| ==> !FullClash([c, z + "." + c], {}, r)
  {
    hide ShortName, Components;
    var n := |Components(c)|;
    ShortOfExtension(z, c, n);
    var names := [z + "." + c, c];
    var p := ShortNames(names, n);
    assert p[..1][0] == p[1] && Taken(p, {}, 1) && AtEnd(names, n)[1];
    forall r: nat | r <= n
      ensures !FullClash([c, z + "." + c], {}, r)
    {
      ComponentsOfExtension(z, c);
      var q, ends := ShortNames([c, z + "." + c], r), AtEnd([c, z + "." + c], r);
      assert !Taken(q, {}, 0) && !ends[1];
    }
  }

  /** A single key is found at once. */
  lemma SingleKeyFound(name: string, start: nat)
    ensures KeySearch([name], start) == Found(start)
  {
    hide ShortName;
    GoodMeans(ShortNames([name], start), {});
    SearchAt([name], {}, start, start);
  }

  lemma SameNameIsTaken(name: string, s: nat)
    ensures DataSearch([name], [name], Found(s)) != Found(s)
  {
    hide ShortName;
    var p := ShortNames([name], s);
    assert p[0] in Elements(p);
    if Search([name], Elements(p), s) == Found(s) {
      FoundNamesAreDistinct([name], Elements(p), s);
    }
  }

  /** A key and a data field of the same name always end in the fallback, after 50 tries. */
  lemma SameNameIsSuffixed(name: string)
    ensures var c := CoreNames([name], [name]);
            && 50 < c.key.depth && 50 < c.data.depth
            && KeyName(c, name) == ShortName(name, c.key.depth) + "_key"
            && DataName(c, name) == ShortName(name, c.data.depth) + "_data"
            && (|Components(name)| <= 51 ==>
                  KeyName(c, name) == FlatName(name) + "_key" && DataName(c, name) == FlatName(name) + "_data")
  {
    hide ShortName, FlatName, Components, Align, KeySearch;
    var names := [name];
    var s := AlignedFrom(names, names, 1, 0);
    var c := CoreNames(names, names);
    SingleKeyFound(name, s);
    if !c.suffixed {
      EqualDepthsMeanFound(names, names, c.key);
      SameNameIsTaken(name, s);
    }
    DepthsGrow(names, names, s);
    if |Components(name)| <= 51 {
      ShortAtFullDepth(name, c.key.depth);
      ShortAtFullDepth(name, c.data.depth);
    }
  }

  /** Both searches at depth `s` for a key and a data field that differ in their first component. */
  lemma SiblingSearches(x: string, y: string, c: string, s: nat)
    requires Plain(x) && Plain(y) && x != y && 1 <= s <= |Components(c)| + 1
    ensures KeySearch([x + "." + c], s) == Found(s)
    ensures DataSearch([x + "." + c], [y + "." + c], Found(s)) == Found(if s <= |Components(c)| then s + 1 else s)
  {
    hide ShortName, Components, FlatName, Good, FullClash;
    var key, data, n := x + "." + c, y + "." + c, |Components(c)|;
    SingleKeyFound(key, s);
    OneMoreFront(x, c);
    OneMoreFront(y, c);
    ShortOfExtension(x, c, s);
    ShortOfExtension(y, c, s);
    var taken := Elements(ShortNames([key], s));
    assert ShortNames([key], s) == [ShortName(key, s)];
    PassOfOne(data, taken, s);
    if s <= n {
      ShortGrows(data, s, s + 1);
      PassOfOne(data, taken, s + 1);
      SearchAt([data], taken, s, s + 1);
    } else {
      ShortAtFullDepth(key, s);
      ShortAtFullDepth(data, s);
      SuffixInjective(x, y, "_" + FlatName(c));
      assert x + "_" + FlatName(c) == x + ("_" + FlatName(c)) && y + "_" + FlatName(c) == y + ("_" + FlatName(c));
      SearchAt([data], taken, s, s);
    }
  }

  lemma PassOfOne(name: string, taken: set<string>, r: nat)
    ensures Good([name], taken, r) <==> ShortName(name, r) !in taken
    ensures r < |Components(name)| ==> !FullClash([name], taken, r)
  {
    hide ShortName, Components;
    var p := ShortNames([name], r);
    GoodMeans(p, taken);
    assert p[0] in p;
    assert r < |Components(name)| ==> !AtEnd([name], r)[0];
  }

  lemma {:induction false} SiblingTries(x: string, y: string, c: string, tries: nat)
    requires Plain(x) && Plain(y) && x != y && tries < MAX_TRIES && tries <= |Components(c)|
    ensures var key, data := [x + "." + c], [y + "." + c];
            var core := Align(key, data, KeySearch(key, tries + 1), tries);
            if |Components(c)| < MAX_TRIES
            then core == Core(Found(|Components(c)| + 1), Found(|Components(c)| + 1), false)
            else core.suffixed
    decreases MAX_TRIES - tries
  {
    hide KeySearch, DataSearch, Components;
    SiblingSearches(x, y, c, tries + 1);
    if tries < |Components(c)| && tries + 1 < MAX_TRIES {
      SiblingTries(x, y, c, tries + 1);
    }
  }

  /** A key and a data field that differ in their first component only need as many further tries
      as components follow: they keep plain names exactly if those are fewer than 50.  So
      hdr.ipv4.port and meta.ipv4.port align at the second. */
  lemma SiblingFieldsAlignIff(x: string, y: string, c: string)
    requires Plain(x) && Plain(y) && x != y
    ensures var core := CoreNames([x + "." + c], [y + "." + c]);
            && (!core.suffixed <==> |Components(c)| < 50)
            && (!core.suffixed ==>
                  KeyName(core, x + "." + c) == x + "_" + FlatName(c) &&
                  DataName(core, y + "." + c) == y + "_" + FlatName(c))
  {
    hide Align, KeySearch, Components, FlatName, ShortName;
    SiblingTries(x, y, c, 0);
    OneMoreFront(x, c);
    OneMoreFront(y, c);
    ShortAtFullDepth(x + "." + c, |Components(c)| + 1);
    ShortAtFullDepth(y + "." + c, |Components(c)| + 1);
    assert x + "_" + FlatName(c) + "" == x + "_" + FlatName(c);
    assert y + "_" + FlatName(c) + "" == y + "_" + FlatName(c);
  }

  lemma ExampleNames(r: nat)
    requires 1 <= r
    ensures ShortName("a_b", r) == "a_b" && |Components("a_b")| == 1
    ensures ShortName("a.b", r) == (if r == 1 then "b" else "a_b") && |Components("a.b")| == 2
    ensures ShortName("b", r) == "b" && |Components("b")| == 1
  {
    hide Sanitise, Split, Components, FlatName, ShortName;
    PlainName("a_b", r);
    PlainName("b", r);
    OneMoreFront("a", "b");
    assert "a.b" == "a" + "." + "b" && "a" + "_" + "b" == "a_b" && ["a"] + ["b"] == ["a", "b"];
    if r == 1 {
      LastOfTwo("a.b", "a", "b");
    } else {
      ShortAtFullDepth("a.b", r);
    }
  }

  lemma LastOfTwo(name: string, x: string, y: string)
    requires Components(name) == [x, y]
    ensures ShortName(name, 1) == y
  {
    hide Components;
    assert [x, y][1..] == [y];
  }

  lemma ExamplePass(names: seq<string>, collide: set<string>, r: nat)
    requires 1 <= r
    ensures names == ["a_b", "a.b"] && collide == {} ==>
              if r == 1 then Good(names, collide, r) else !Good(names, collide, r) && FullClash(names, collide, r)
    ensures names == ["b"] ==>
              if "b" in collide then !Good(names, collide, r) && FullClash(names, collide, r)
              else Good(names, collide, r)
  {
    hide ShortName, Components;
    ExampleNames(r);
    var p, ends := ShortNames(names, r), AtEnd(names, r);
    GoodMeans(p, collide);
    if names == ["a_b", "a.b"] {
      assert p == [ShortName("a_b", r), ShortName("a.b", r)];
      if r > 1 {
        assert p[..1][0] == p[1] && Taken(p, {}, 1) && ends[1];
      }
    }
    if names == ["b"] {
      assert p == ["b"] && ends[0];
      assert "b" in collide ==> Taken(p, collide, 0);
    }
  }

  lemma FlatCollisionSearches()
    ensures KeySearch(["a_b", "a.b"], 1) == Found(1) && KeySearch(["a_b", "a.b"], 21) == GaveUp(21)
    ensures DataSearch(["a_b", "a.b"], ["b"], Found(1)) == GaveUp(20)
    ensures DataSearch(["a_b", "a.b"], ["b"], GaveUp(21)) == Found(22)
  {
    hide ShortName, Components, Good, FullClash;
    var keys, data := ["a_b", "a.b"], ["b"];
    var at1, at21 := ShortNames(keys, 1), ShortNames(keys, 21);
    ExampleNames(1);
    ExampleNames(21);
    assert at1 == ["a_b", "b"] && at1[1] in Elements(at1);
    assert at21 == ["a_b", "a_b"] && "b" !in Elements(at21);
    ExamplePass(keys, {}, 1);
    ExamplePass(keys, {}, 21);
    SearchAt(keys, {}, 1, 1);
    SearchAt(keys, {}, 21, 21);
    forall r: nat | 1 <= r < 21
      ensures !Good(data, Elements(at1), r) && FullClash(data, Elements(at1), r)
    {
      ExamplePass(data, Elements(at1), r);
    }
    SearchAt(data, Elements(at1), 1, 20);
    ExamplePass(data, Elements(at21), 22);
    SearchAt(data, Elements(at21), 22, 22);
  }

  /** Names distinct before flattening are not enough: the keys a_b and a.b with the data field
      b end at equal depths with two equal key names. */
  lemma FlatCollisionSlipsThrough()
    ensures Sanitise("a_b") != Sanitise("a.b")
    ensures var c := CoreNames(["a_b", "a.b"], ["b"]);
            !c.suffixed && KeyName(c, "a_b") == KeyName(c, "a.b") == "a_b"
  {
    hide ShortName, Components, KeySearch, DataSearch;
    FlatCollisionSearches();
    ExampleNames(21);
    var keys, data := ["a_b", "a.b"], ["b"];
    assert Align(keys, data, GaveUp(21), 1) == Core(GaveUp(21), Found(22), false);
    assert "a_b" + "" == "a_b";
    assert Sanitise("a_b") == "a_b" && Sanitise("a.b") == "a.b";
  }
}
