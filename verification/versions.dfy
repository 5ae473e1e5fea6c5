/** The desktop application's update check: version strings are read as
    tuples of integers, compared the way Python compares tuples, the release
    list is sorted by that key, and the last release decides whether the
    update dialog appears. Fetching and scraping the release list is not
    modelled; the releases arrive as a list of decoded JSON objects. */
module Versions {
  import opened Common
  import opened PyText

  /** The version the application reports as its own. */
  const CurrentVersion: string := "1.0.1"

  /** What `version_to_tuple` falls back to. */
  const Fallback: seq<int> := [0, 0, 0]

  /** Whether every dotted component parses with `int()`. */
  predicate AllParse(pieces: seq<string>)
  {
    forall i :: 0 <= i < |pieces| ==> ParseInt(pieces[i]).Some?
  }

  /** `version_to_tuple(s)`: `tuple(map(int, s.split('.')))`, or (0, 0, 0)
      when any component fails to parse. */
  function VersionTuple(s: string): (t: seq<int>)
    ensures |t| >= 1
    ensures AllParse(Split(s, '.')) ==>
              |t| == |Split(s, '.')| && forall i :: 0 <= i < |t| ==> Some(t[i]) == ParseInt(Split(s, '.')[i])
    ensures !AllParse(Split(s, '.')) ==> t == Fallback
  {
    var pieces := Split(s, '.');
    if AllParse(pieces) then seq(|pieces|, i requires 0 <= i < |pieces| => ParseInt(pieces[i]).value)
    else Fallback
  }

  /** `int()` rejects the ASCII separators FS..US, which `str.strip()`
      would skip, so "1.\x1c2" reads as the fallback. */
  lemma SeparatorVersionIsFallback()
    ensures VersionTuple("1.\U{1C}2") == Fallback
  {
    var pieces := ["1", "\U{1C}2"];
    assert Join(pieces, '.') == "1.\U{1C}2";
    SplitJoin(pieces, '.');
    assert pieces[1][0] == '\U{1C}';
    assert !AllParse(pieces);
  }

  /** The same for a decoded JSON value: a value that is not a string has no
      `split`, and the fallback is taken. */
  function VersionTupleOf(v: JsonValue): (t: seq<int>)
    ensures |t| >= 1
  {
    match v
    case JStr(s) => VersionTuple(s)
    case _ => Fallback
  }

  /** Python's `<` on tuples of integers: the first differing component
      decides, and a proper prefix is smaller. */
  predicate TupleLess(a: seq<int>, b: seq<int>)
    decreases |a|
  {
    if |a| == 0 then |b| > 0
    else if |b| == 0 then false
    else if a[0] != b[0] then a[0] < b[0]
    else TupleLess(a[1..], b[1..])
  }

  /** The order spelled out: `a` and `b` agree up to some index `k`, where
      either `a` has ended and `b` has not, or `a[k] < b[k]`. */
  ghost predicate LessAt(a: seq<int>, b: seq<int>, k: nat)
  {
    && k <= |a| && k <= |b|
    && a[..k] == b[..k]
    && ((k == |a| && k < |b|) || (k < |a| && k < |b| && a[k] < b[k]))
  }

  /** A witness index makes the first tuple smaller. */
  lemma {:induction false} LessAtIsLess(a: seq<int>, b: seq<int>, k: nat)
    requires LessAt(a, b, k)
    ensures TupleLess(a, b)
    decreases k
  {
    if k > 0 {
      assert a[0] == a[..k][0] == b[..k][0] == b[0];
      assert a[1..][..k - 1] == a[..k][1..];
      assert b[1..][..k - 1] == b[..k][1..];
      LessAtIsLess(a[1..], b[1..], k - 1);
    }
  }

  /** The recursive order is the spelled-out one. */
  lemma {:induction false} TupleLessAt(a: seq<int>, b: seq<int>)
    ensures TupleLess(a, b) <==> exists k: nat :: LessAt(a, b, k)
    decreases |a|
  {
    forall k: nat | LessAt(a, b, k) ensures TupleLess(a, b) {
      LessAtIsLess(a, b, k);
    }
    if TupleLess(a, b) {
      if |a| == 0 || a[0] != b[0] {
        assert LessAt(a, b, 0);
      } else {
        TupleLessAt(a[1..], b[1..]);
        var k: nat :| LessAt(a[1..], b[1..], k);
        assert a[..k + 1] == [a[0]] + a[1..][..k];
        assert b[..k + 1] == [b[0]] + b[1..][..k];
        assert LessAt(a, b, k + 1);
      }
    }
  }

  lemma {:induction false} TupleLessIrreflexive(a: seq<int>)
    ensures !TupleLess(a, a)
    decreases |a|
  {
    if |a| > 0 { TupleLessIrreflexive(a[1..]); }
  }

  lemma {:induction false} TupleLessTransitive(a: seq<int>, b: seq<int>, c: seq<int>)
    ensures TupleLess(a, b) && TupleLess(b, c) ==> TupleLess(a, c)
    decreases |a|
  {
    if |a| > 0 && |b| > 0 && |c| > 0 && a[0] == b[0] && b[0] == c[0] {
      TupleLessTransitive(a[1..], b[1..], c[1..]);
    }
  }

  /** At most one of two tuples is smaller than the other. */
  lemma TupleLessAsymmetric(a: seq<int>, b: seq<int>)
    ensures !(TupleLess(a, b) && TupleLess(b, a))
  {
    TupleLessTransitive(a, b, a);
    TupleLessIrreflexive(a);
  }

  /** Any two tuples are equal or one is smaller. */
  lemma {:induction false} TupleLessTotal(a: seq<int>, b: seq<int>)
    ensures TupleLess(a, b) || a == b || TupleLess(b, a)
    decreases |a|
  {
    if |a| > 0 && |b| > 0 && a[0] == b[0] {
      TupleLessTotal(a[1..], b[1..]);
      if a[1..] == b[1..] {
        assert a == [a[0]] + a[1..] && b == [b[0]] + b[1..];
      }
    }
  }

  /** "Not greater" chains: the order is a total preorder. */
  lemma NotLessTransitive(a: seq<int>, b: seq<int>, c: seq<int>)
    requires !TupleLess(b, a) && !TupleLess(c, b)
    ensures !TupleLess(c, a)
  {
    TupleLessTotal(a, b);
    TupleLessTransitive(c, a, b);
  }

  /** `compare_versions(v1, v2)`: 1, 0 or -1 as the first tuple is greater,
      equal or smaller. */
  function CompareVersions(v1: string, v2: string): (r: int)
    ensures r == 1 <==> TupleLess(VersionTuple(v2), VersionTuple(v1))
    ensures r == -1 <==> TupleLess(VersionTuple(v1), VersionTuple(v2))
    ensures r == 0 <==> VersionTuple(v1) == VersionTuple(v2)
    ensures r in {-1, 0, 1}
  {
    var t1 := VersionTuple(v1);
    var t2 := VersionTuple(v2);
    TupleLessTotal(t1, t2);
    TupleLessAsymmetric(t1, t2);
    TupleLessIrreflexive(t1);
    if TupleLess(t2, t1) then 1
    else if TupleLess(t1, t2) then -1
    else 0
  }

  lemma CompareReflexive(v: string)
    ensures CompareVersions(v, v) == 0
  {
  }

  lemma CompareAntisymmetric(a: string, b: string)
    ensures CompareVersions(a, b) == -CompareVersions(b, a)
  {
  }

  /** The decimal numerals of a tuple's components. */
  function Numerals(t: seq<nat>): (p: seq<string>)
    ensures |p| == |t|
    ensures forall k :: 0 <= k < |t| ==> p[k] == NatToStr(t[k])
  {
    seq(|t|, i requires 0 <= i < |t| => NatToStr(t[i]))
  }

  /** The dotted rendering of a tuple of natural numbers. */
  function Render(t: seq<nat>): (s: string)
    requires |t| >= 1
  {
    Join(Numerals(t), '.')
  }

  lemma NumeralHasNoDot(n: nat)
    ensures '.' !in NatToStr(n)
  {
    var d := NatToStr(n);
    assert forall j :: 0 <= j < |d| ==> IsDigit(d[j]);
  }

  /** Splitting a rendering gives the numerals back. */
  lemma SplitRendering(t: seq<nat>)
    requires |t| >= 1
    ensures Split(Render(t), '.') == Numerals(t)
  {
    var pieces := Numerals(t);
    forall k | 0 <= k < |pieces| ensures '.' !in pieces[k] {
      NumeralHasNoDot(t[k]);
    }
    SplitJoin(pieces, '.');
  }

  /** Reading a rendered tuple gives the tuple back. */
  lemma RenderRoundTrip(t: seq<nat>)
    requires |t| >= 1
    ensures VersionTuple(Render(t)) == t
  {
    var pieces := Numerals(t);
    SplitRendering(t);
    forall k | 0 <= k < |pieces| ensures ParseInt(pieces[k]) == Some(t[k] as int) {
      IntRoundTrip(t[k]);
    }
    assert AllParse(pieces);
    var v := VersionTuple(Render(t));
    assert |v| == |t|;
    forall k | 0 <= k < |t| ensures v[k] == t[k] {
      assert Some(v[k]) == ParseInt(pieces[k]);
    }
  }

  lemma JoinThree(x: string, y: string, z: string)
    ensures Join([x, y, z], '.') == x + "." + y + "." + z
  {
    assert [x, y, z][1..] == [y, z];
    assert [y, z][1..] == [z];
    assert Join([z], '.') == z;
    assert Join([y, z], '.') == y + "." + z;
    assert Join([x, y, z], '.') == x + "." + (y + "." + z);
  }

  /** Three components rendered. */
  lemma RenderThree(x: nat, y: nat, z: nat)
    ensures Render([x, y, z]) == NatToStr(x) + "." + NatToStr(y) + "." + NatToStr(z)
  {
    assert Numerals([x, y, z]) == [NatToStr(x), NatToStr(y), NatToStr(z)];
    JoinThree(NatToStr(x), NatToStr(y), NatToStr(z));
  }

  lemma SampleNumerals()
    ensures NatToStr(0) == "0" && NatToStr(1) == "1" && NatToStr(9) == "9" && NatToStr(10) == "10"
  {
    assert NatToStr(10) == NatToStr(1) + "0";
  }

  lemma RenderLiteral(x: nat, y: nat, z: nat, literal: string)
    requires literal == NatToStr(x) + "." + NatToStr(y) + "." + NatToStr(z)
    ensures Render([x, y, z]) == literal
  {
    RenderThree(x, y, z);
  }

  /** The version strings the two examples below read. */
  lemma SampleRenderings()
    ensures Render([1, 0, 10]) == "1.0.10"
    ensures Render([1, 0, 9]) == "1.0.9"
    ensures Render([1, 0, 0]) == "1.0.0"
    ensures Render([0, 0, 0]) == "0.0.0"
    ensures Render([1, 0]) == "1.0"
  {
    SampleNumerals();
    assert "1" + "." + "0" + "." + "10" == "1.0.10";
    RenderLiteral(1, 0, 10, "1.0.10");
    assert "1" + "." + "0" + "." + "9" == "1.0.9";
    RenderLiteral(1, 0, 9, "1.0.9");
    assert "1" + "." + "0" + "." + "0" == "1.0.0";
    RenderLiteral(1, 0, 0, "1.0.0");
    assert "0" + "." + "0" + "." + "0" == "0.0.0";
    RenderLiteral(0, 0, 0, "0.0.0");
    var pieces := Numerals([1, 0]);
    assert pieces == ["1", "0"] && pieces[1..] == ["0"];
    assert Join(pieces, '.') == "1" + "." + Join(["0"], '.');
  }

  /** The tuple order on the two examples below. */
  lemma SampleOrder()
    ensures TupleLess([1, 0, 9], [1, 0, 10]) && !TupleLess([1, 0, 10], [1, 0, 9])
    ensures TupleLess([1, 0], [1, 0, 0]) && !TupleLess([1, 0, 0], [1, 0])
  {
    assert [1, 0, 9][1..] == [0, 9] && [1, 0, 10][1..] == [0, 10];
    assert [0, 9][1..] == [9] && [0, 10][1..] == [10];
    assert [1, 0][1..] == [0] && [1, 0, 0][1..] == [0, 0];
    assert [0][1..] == [] && [0, 0][1..] == [0];
  }

  /** Comparing two renderings compares the tuples. */
  lemma CompareRendered(a: seq<nat>, b: seq<nat>)
    requires |a| >= 1 && |b| >= 1
    ensures CompareVersions(Render(a), Render(b)) == 1 <==> TupleLess(b, a)
    ensures CompareVersions(Render(a), Render(b)) == -1 <==> TupleLess(a, b)
  {
    RenderRoundTrip(a);
    RenderRoundTrip(b);
  }

  /** Comparison is numeric, not textual: 1.0.10 is newer than 1.0.9. */
  lemma NumericNotTextual()
    ensures CompareVersions("1.0.10", "1.0.9") == 1
  {
    SampleRenderings();
    SampleOrder();
    CompareRendered([1, 0, 10], [1, 0, 9]);
  }

  /** A proper prefix is older: 1.0 comes before 1.0.0. */
  lemma PrefixIsOlder()
    ensures CompareVersions("1.0", "1.0.0") == -1
  {
    SampleRenderings();
    SampleOrder();
    CompareRendered([1, 0], [1, 0, 0]);
  }

  // ----- latest-release selection --------------------------------------------

  /** A release as the update check decoded it. */
  type Release = map<string, JsonValue>

  /** `x.get('version', '0.0.0')`, the sort key's source. */
  function VersionOf(r: Release): JsonValue
  {
    if "version" in r then r["version"] else JStr("0.0.0")
  }

  /** The key `check_for_updates` sorts the releases by. */
  function SortKey(r: Release): seq<int>
  {
    VersionTupleOf(VersionOf(r))
  }

  /** Keys never decrease along `s`. */
  ghost predicate SortedBy<T>(s: seq<T>, key: T -> seq<int>)
  {
    forall i, j :: 0 <= i < j < |s| ==> !TupleLess(key(s[j]), key(s[i]))
  }

  /** Places `x` after every element whose key is not greater than its own:
      the insertion step of a stable sort. */
  function Insert<T>(x: T, s: seq<T>, key: T -> seq<int>): (r: seq<T>)
    ensures multiset(r) == multiset(s) + multiset{x}
    ensures |r| == |s| + 1
  {
    if |s| == 0 then [x]
    else if TupleLess(key(x), key(s[|s| - 1])) then
      var front := Insert(x, s[..|s| - 1], key);
      assert s == s[..|s| - 1] + [s[|s| - 1]];
      front + [s[|s| - 1]]
    else s + [x]
  }

  lemma {:induction false} InsertSorted<T>(x: T, s: seq<T>, key: T -> seq<int>)
    requires SortedBy(s, key)
    ensures SortedBy(Insert(x, s, key), key)
    decreases |s|
  {
    if |s| == 0 {
    } else if TupleLess(key(x), key(s[|s| - 1])) {
      var front := s[..|s| - 1];
      var last := s[|s| - 1];
      InsertSorted(x, front, key);
      var f := Insert(x, front, key);
      forall i | 0 <= i < |f| ensures !TupleLess(key(last), key(f[i])) {
        assert f[i] in multiset(front) + multiset{x};
        if f[i] == x {
          TupleLessAsymmetric(key(x), key(last));
        } else {
          assert f[i] in multiset(front);
          var k :| 0 <= k < |front| && front[k] == f[i];
          assert !TupleLess(key(s[|s| - 1]), key(s[k]));
        }
      }
    } else {
      var r := s + [x];
      forall i | 0 <= i < |s| - 1 ensures !TupleLess(key(x), key(r[i])) {
        assert !TupleLess(key(s[|s| - 1]), key(s[i]));
        NotLessTransitive(key(s[i]), key(s[|s| - 1]), key(x));
      }
    }
  }

  /** The elements of `s` whose key is `k`, in their order in `s`. A sort
      is stable when it keeps this sequence for every key. */
  function WithKey<T>(s: seq<T>, key: T -> seq<int>, k: seq<int>): seq<T>
  {
    if |s| == 0 then []
    else WithKey(s[..|s| - 1], key, k) + (if key(s[|s| - 1]) == k then [s[|s| - 1]] else [])
  }

  /** Inserting `x` adds it at the end of the elements sharing its key and
      leaves every other key's elements as they were. */
  lemma {:induction false} InsertStable<T>(x: T, s: seq<T>, key: T -> seq<int>, k: seq<int>)
    ensures WithKey(Insert(x, s, key), key, k) == WithKey(s, key, k) + (if key(x) == k then [x] else [])
    decreases |s|
  {
    if |s| == 0 {
    } else if TupleLess(key(x), key(s[|s| - 1])) {
      var front := s[..|s| - 1];
      var last := s[|s| - 1];
      var f := Insert(x, front, key);
      InsertStable(x, front, key, k);
      TupleLessIrreflexive(key(x));
      WithKeySnoc(f, last, key, k);
      assert s == front + [last];
      WithKeySnoc(front, last, key, k);
    } else {
      WithKeySnoc(s, x, key, k);
    }
  }

  /** `WithKey` of a sequence with one element appended. */
  lemma WithKeySnoc<T>(s: seq<T>, x: T, key: T -> seq<int>, k: seq<int>)
    ensures WithKey(s + [x], key, k) == WithKey(s, key, k) + (if key(x) == k then [x] else [])
  {
    assert (s + [x])[..|s|] == s;
  }

  /** `InsertStable` for every key at once. */
  lemma InsertStableAll<T>(x: T, s: seq<T>, key: T -> seq<int>)
    ensures forall k :: WithKey(Insert(x, s, key), key, k) == WithKey(s, key, k) + (if key(x) == k then [x] else [])
  {
    forall k ensures WithKey(Insert(x, s, key), key, k) == WithKey(s, key, k) + (if key(x) == k then [x] else []) {
      InsertStable(x, s, key, k);
    }
  }

  /** A stable sort by `key`, as Python's `list.sort(key=...)`: the result
      is a permutation, sorted, and keeps the input order among equal
      keys. */
  function SortBy<T>(s: seq<T>, key: T -> seq<int>): (r: seq<T>)
    ensures multiset(r) == multiset(s)
    ensures |r| == |s|
    ensures SortedBy(r, key)
    ensures forall k :: WithKey(r, key, k) == WithKey(s, key, k)
  {
    if |s| == 0 then []
    else
      var front := SortBy(s[..|s| - 1], key);
      InsertSorted(s[|s| - 1], front, key);
      InsertStableAll(s[|s| - 1], front, key);
      assert s == s[..|s| - 1] + [s[|s| - 1]];
      Insert(s[|s| - 1], front, key)
  }

  /** `all_versions.sort(key=lambda x: version_to_tuple(x.get('version', '0.0.0')))`. */
  function SortReleases(releases: seq<Release>): (r: seq<Release>)
    ensures |r| == |releases|
    ensures multiset(r) == multiset(releases)
    ensures forall i, j :: 0 <= i < j < |r| ==> !TupleLess(SortKey(r[j]), SortKey(r[i]))
    ensures forall k :: WithKey(r, SortKey, k) == WithKey(releases, SortKey, k)
  {
    SortBy(releases, SortKey)
  }

  /** What the update check concludes. */
  datatype Decision = NoReleases | UpToDate | ShowUpdate(latest: Release)

  /** An empty version string reads as the fallback. */
  lemma EmptyVersionIsFallback()
    ensures VersionTuple("") == Fallback
  {
    assert Split("", '.') == [""];
    assert ParseInt("") == None;
  }

  /** So does "0.0.0", which is the fallback spelled out. */
  lemma ZeroVersionIsFallback()
    ensures VersionTuple("0.0.0") == Fallback
  {
    SampleRenderings();
    RenderRoundTrip([0, 0, 0]);
  }

  /** `compare_versions(latest.get("version", ""), current)` reads the
      latest release's version; a missing one reads as "", hence as the
      fallback, which is also what the sort used for it. */
  function LatestKey(r: Release): (t: seq<int>)
    ensures t == SortKey(r)
  {
    EmptyVersionIsFallback();
    ZeroVersionIsFallback();
    VersionTupleOf(if "version" in r then r["version"] else JStr(""))
  }

  /** The latest-release step of `check_for_updates`: sort, take the last,
      and show the dialog iff it is newer than the current version. */
  function Decide(releases: seq<Release>, current: string): (d: Decision)
    ensures |releases| == 0 <==> d == NoReleases
    ensures d.ShowUpdate? ==> d.latest in releases
  {
    if |releases| == 0 then NoReleases
    else
      var sorted := SortReleases(releases);
      var latest := sorted[|sorted| - 1];
      assert latest in multiset(releases);
      if TupleLess(VersionTuple(current), LatestKey(latest)) then ShowUpdate(latest) else UpToDate
  }

  /** The last release after sorting is a newest one. */
  lemma LastIsMaximal(releases: seq<Release>)
    requires |releases| > 0
    ensures var sorted := SortReleases(releases);
            forall r :: r in releases ==> !TupleLess(SortKey(sorted[|sorted| - 1]), SortKey(r))
  {
    var sorted := SortReleases(releases);
    forall r | r in releases ensures !TupleLess(SortKey(sorted[|sorted| - 1]), SortKey(r)) {
      assert r in multiset(sorted);
      var i :| 0 <= i < |sorted| && sorted[i] == r;
      if i < |sorted| - 1 {
        assert !TupleLess(SortKey(sorted[|sorted| - 1]), SortKey(sorted[i]));
      } else {
        TupleLessIrreflexive(SortKey(r));
      }
    }
  }

  /** The dialog appears exactly when some release is newer than the
      current version. */
  lemma UpdateIffNewerRelease(releases: seq<Release>, current: string)
    ensures Decide(releases, current).ShowUpdate? <==>
              exists r :: r in releases && TupleLess(VersionTuple(current), SortKey(r))
  {
    if |releases| > 0 {
      var sorted := SortReleases(releases);
      var latest := sorted[|sorted| - 1];
      assert latest in multiset(releases);
      LastIsMaximal(releases);
      var c := VersionTuple(current);
      forall r | r in releases ensures TupleLess(c, SortKey(r)) ==> TupleLess(c, SortKey(latest)) {
        TupleLessTotal(SortKey(r), SortKey(latest));
        TupleLessTransitive(c, SortKey(r), SortKey(latest));
      }
    }
  }

  /** For a release whose version is a string, the decision is
      `compare_versions(latest, current) > 0`. */
  lemma DecideAgreesWithCompare(releases: seq<Release>, current: string)
    requires |releases| > 0
    ensures var latest := SortReleases(releases)[|releases| - 1];
            "version" in latest && latest["version"].JStr? ==>
              (Decide(releases, current).ShowUpdate? <==> CompareVersions(latest["version"].s, current) > 0)
  {
  }

  /** Among the releases that share the newest version, the one taken as
      the latest is the one listed last. */
  lemma LatestIsLastOfNewest(releases: seq<Release>)
    requires |releases| > 0
    ensures var latest := SortReleases(releases)[|releases| - 1];
            var ties := WithKey(releases, SortKey, SortKey(latest));
            |ties| > 0 && ties[|ties| - 1] == latest
  {
    var sorted := SortReleases(releases);
    var latest := sorted[|sorted| - 1];
    assert WithKey(sorted, SortKey, SortKey(latest))
        == WithKey(sorted[..|sorted| - 1], SortKey, SortKey(latest)) + [latest];
  }
}
