/**
 * `get_images_in_dir`: the PNG names of a directory listing, ordered by the
 * integer written before the first `_` (the ordinal), stably, so that names
 * with equal ordinals keep their listing order. The listing itself
 * (`os.listdir`) is an input.
 */
module Utils {
  import opened Wrappers
  import opened Text

  const PNG := ".png"

  predicate IsPng(name: string) { EndsWith(name, PNG) }

  /** `int(name.split("_")[0])`, or `None` where Python raises ValueError. */
  function Ordinal(name: string): Option<int> {
    ParseInt(Before(name, '_'))
  }

  predicate HasOrdinal(name: string) { Ordinal(name).Some? }

  predicate AllOrdinal(names: seq<string>) {
    forall f :: f in names ==> HasOrdinal(f)
  }

  /** The sort key; it is only consulted once every name has an ordinal. */
  function SortKey(name: string): int {
    if HasOrdinal(name) then Ordinal(name).value else 0
  }

  /** Non-decreasing in `key`. */
  predicate Sorted(names: seq<string>, key: string -> int) {
    forall i, j :: 0 <= i < j < |names| ==> key(names[i]) <= key(names[j])
  }

  /** The names whose key is `k`, in their order in `names`. */
  function WithKey(names: seq<string>, key: string -> int, k: int): seq<string> {
    if names == [] then []
    else (if key(names[0]) == k then [names[0]] else []) + WithKey(names[1..], key, k)
  }

  /** The list comprehension `[f for f in listing if f.endswith(".png")]`. */
  function PngNames(listing: seq<string>): (r: seq<string>)
    ensures forall f :: f in r <==> f in listing && IsPng(f)
    ensures |r| <= |listing|
  {
    if listing == [] then []
    else (if IsPng(listing[0]) then [listing[0]] else []) + PngNames(listing[1..])
  }

  /** The comprehension filters piecewise: the PNG names of a concatenation, in order. */
  lemma {:induction false} PngNamesAppend(a: seq<string>, b: seq<string>)
    ensures PngNames(a + b) == PngNames(a) + PngNames(b)
  {
    if a == [] {
      assert a + b == b;
    } else {
      assert (a + b)[1..] == a[1..] + b;
      PngNamesAppend(a[1..], b);
      assert (a + b)[0] == a[0];
    }
  }

  /** Appending one name to the listing appends it to the PNG names exactly when it is a PNG. */
  lemma PngNamesSnoc(init: seq<string>, last: string)
    ensures PngNames(init + [last]) == PngNames(init) + (if IsPng(last) then [last] else [])
  {
    PngNamesAppend(init, [last]);
    assert PngNames([last]) == (if IsPng(last) then [last] else []) + PngNames([]);
  }

  /** Inserts `f` in front of every name whose key is not smaller. */
  function Insert(f: string, s: seq<string>, key: string -> int): (r: seq<string>)
    ensures multiset(r) == multiset(s) + multiset{f}
  {
    if s == [] || key(f) <= key(s[0]) then [f] + s
    else
      assert s == [s[0]] + s[1..];
      [s[0]] + Insert(f, s[1..], key)
  }

  lemma {:induction false} InsertSorted(f: string, s: seq<string>, key: string -> int)
    requires Sorted(s, key)
    ensures Sorted(Insert(f, s, key), key)
  {
    if s == [] || key(f) <= key(s[0]) {
      forall g | g in s ensures key(f) <= key(g) {
        var j :| 0 <= j < |s| && s[j] == g;
      }
      ConsSorted(f, s, key);
    } else {
      InsertSorted(f, s[1..], key);
      forall g | g in s[1..] ensures key(s[0]) <= key(g) {
        var j :| 0 <= j < |s[1..]| && s[1..][j] == g;
        assert s[j + 1] == g;
      }
      InsertLowerBound(f, s[1..], key, key(s[0]));
      ConsSorted(s[0], Insert(f, s[1..], key), key);
    }
  }

  /** Every name of an insertion has a key of at least `b` when every inserted name does. */
  lemma InsertLowerBound(f: string, s: seq<string>, key: string -> int, b: int)
    requires b <= key(f) && forall g :: g in s ==> b <= key(g)
    ensures forall g :: g in Insert(f, s, key) ==> b <= key(g)
  {
    forall g | g in Insert(f, s, key) ensures b <= key(g) {
      assert g in multiset(Insert(f, s, key));
      assert g == f || g in multiset(s);
    }
  }

  /** A sorted list stays sorted behind a name whose key is at most all of its keys. */
  lemma ConsSorted(x: string, rest: seq<string>, key: string -> int)
    requires Sorted(rest, key) && forall g :: g in rest ==> key(x) <= key(g)
    ensures Sorted([x] + rest, key)
  {
    var r := [x] + rest;
    forall i, j | 0 <= i < j < |r| ensures key(r[i]) <= key(r[j]) {
      assert r[j] == rest[j - 1];
      if i > 0 {
        assert r[i] == rest[i - 1];
      }
    }
  }

  /** Python's `sorted(names, key=key)`: a stable insertion sort. */
  function SortBy(names: seq<string>, key: string -> int): (r: seq<string>)
    ensures multiset(r) == multiset(names)
    ensures Sorted(r, key)
  {
    if names == [] then []
    else
      assert names == [names[0]] + names[1..];
      var rest := SortBy(names[1..], key);
      InsertSorted(names[0], rest, key);
      Insert(names[0], rest, key)
  }

  /** The position of the first PNG name, in listing order, whose ordinal `int()` rejects. */
  function FirstWithoutOrdinal(names: seq<string>): (r: Option<nat>)
    ensures r.None? <==> AllOrdinal(names)
    ensures r.Some? ==> r.value < |names| && !HasOrdinal(names[r.value]) && AllOrdinal(names[..r.value])
  {
    if names == [] then None
    else if !HasOrdinal(names[0]) then Some(0)
    else
      var rest := FirstWithoutOrdinal(names[1..]);
      AllOrdinalTail(names);
      if rest.None? then None
      else
        FirstShift(names, rest.value);
        Some(rest.value + 1)
  }

  /** A list is all ordinals exactly when its head has one and its tail is all ordinals. */
  lemma AllOrdinalTail(names: seq<string>)
    requires names != []
    ensures AllOrdinal(names) <==> HasOrdinal(names[0]) && AllOrdinal(names[1..])
  {
    assert forall g :: g in names <==> g == names[0] || g in names[1..] by {
      assert names == [names[0]] + names[1..];
    }
  }

  /** The first name without an ordinal in the tail is the first in the list, one position on. */
  lemma FirstShift(names: seq<string>, k: nat)
    requires names != [] && HasOrdinal(names[0])
    requires k < |names| - 1 && !HasOrdinal(names[1..][k]) && AllOrdinal(names[1..][..k])
    ensures !HasOrdinal(names[k + 1]) && AllOrdinal(names[..k + 1])
  {
    var prefix := names[..k + 1];
    assert prefix == [names[0]] + names[1..][..k];
    AllOrdinalTail(prefix);
  }

  /**
   * `get_images_in_dir(path)` with `os.listdir(path)` given as `listing`.
   * `sorted` computes every key, in list order, before it sorts, so the
   * `ValueError` is the one of the first PNG name without an ordinal.
   */
  function ListImages(listing: seq<string>): (r: Result<seq<string>>)
    ensures r.Ok? <==> forall f :: f in listing && IsPng(f) ==> HasOrdinal(f)
    ensures r.Ok? ==> AllOrdinal(r.value) && Sorted(r.value, SortKey)
    ensures r.Ok? ==> multiset(r.value) == multiset(PngNames(listing))
    ensures r.Ok? ==> forall f :: f in r.value <==> f in listing && IsPng(f)
    ensures r.Err? ==>
      exists k :: 0 <= k < |PngNames(listing)| && !HasOrdinal(PngNames(listing)[k]) &&
        AllOrdinal(PngNames(listing)[..k]) && r.error == InvalidLiteral(Before(PngNames(listing)[k], '_'))
  {
    var pngs := PngNames(listing);
    match FirstWithoutOrdinal(pngs)
    case Some(k) => Err(InvalidLiteral(Before(pngs[k], '_')))
    case None =>
      var r := SortBy(pngs, SortKey);
      assert forall f :: f in r <==> f in pngs by {
        forall f ensures f in r <==> f in pngs {
          assert f in r <==> f in multiset(r);
        }
      }
      Ok(r)
  }

  /** Inserting keeps, for every key, the relative order of the names carrying it. */
  lemma {:induction false} InsertStable(f: string, s: seq<string>, key: string -> int, k: int)
    ensures WithKey(Insert(f, s, key), key, k) == (if key(f) == k then [f] else []) + WithKey(s, key, k)
  {
    if s == [] || key(f) <= key(s[0]) {
      WithKeyCons(f, s, key, k);
    } else {
      InsertStable(f, s[1..], key, k);
      InsertPastHead(f, s, key, k);
    }
  }

  /** Moving `f` past a head with a smaller key keeps every key's subsequence. */
  lemma InsertPastHead(f: string, s: seq<string>, key: string -> int, k: int)
    requires s != [] && key(f) > key(s[0])
    requires WithKey(Insert(f, s[1..], key), key, k) == (if key(f) == k then [f] else []) + WithKey(s[1..], key, k)
    ensures WithKey(Insert(f, s, key), key, k) == (if key(f) == k then [f] else []) + WithKey(s, key, k)
  {
    var rest := Insert(f, s[1..], key);
    assert Insert(f, s, key) == [s[0]] + rest;
    WithKeyCons(s[0], rest, key, k);
    assert [s[0]] + s[1..] == s;
    WithKeyCons(s[0], s[1..], key, k);
    OneSideEmpty(if key(s[0]) == k then [s[0]] else [], if key(f) == k then [f] else [], WithKey(s[1..], key, k));
  }

  /** Two prefixes, one of them empty, commute; this is the reordering step of `InsertPastHead`. */
  lemma OneSideEmpty(a: seq<string>, b: seq<string>, w: seq<string>)
    requires a == [] || b == []
    ensures a + (b + w) == b + (a + w)
  {
    if a == [] {
      assert a + (b + w) == b + w;
      assert a + w == w;
    } else {
      assert b + w == w;
      assert b + (a + w) == a + w;
    }
  }

  lemma WithKeyCons(x: string, rest: seq<string>, key: string -> int, k: int)
    ensures WithKey([x] + rest, key, k) == (if key(x) == k then [x] else []) + WithKey(rest, key, k)
  {
    assert ([x] + rest)[1..] == rest;
  }

  /** The sort is stable: names with equal keys keep their input order. */
  lemma {:induction false} SortStable(names: seq<string>, key: string -> int, k: int)
    ensures WithKey(SortBy(names, key), key, k) == WithKey(names, key, k)
  {
    if names != [] {
      SortStable(names[1..], key, k);
      InsertStable(names[0], SortBy(names[1..], key), key, k);
    }
  }

  /** Sorting a list that is already in key order leaves it as it is. */
  lemma {:induction false} SortSortedIdentity(names: seq<string>, key: string -> int)
    requires Sorted(names, key)
    ensures SortBy(names, key) == names
  {
    if names != [] {
      SortSortedIdentity(names[1..], key);
    }
  }

  lemma {:induction false} PngNamesOfPngs(names: seq<string>)
    requires forall f :: f in names ==> IsPng(f)
    ensures PngNames(names) == names
  {
    if names != [] {
      PngNamesOfPngs(names[1..]);
    }
  }

  /** Listing the listing's own result gives it back unchanged. */
  lemma ListImagesIdempotent(listing: seq<string>)
    requires ListImages(listing).Ok?
    ensures ListImages(ListImages(listing).value) == ListImages(listing)
  {
    var r := ListImages(listing).value;
    PngNamesOfPngs(r);
    SortSortedIdentity(r, SortKey);
  }

  /** Stability stated against the listing: among names with one ordinal, the listing order survives. */
  lemma ListImagesStable(listing: seq<string>, k: int)
    requires ListImages(listing).Ok?
    ensures WithKey(ListImages(listing).value, SortKey, k) == WithKey(PngNames(listing), SortKey, k)
  {
    SortStable(PngNames(listing), SortKey, k);
  }

  /** A name that starts with digits and `_` has those digits' value as its ordinal. */
  lemma OrdinalOfDigits(ds: string, rest: string)
    requires ds != [] && AllDigits(ds)
    ensures Ordinal(ds + "_" + rest) == Some(DigitsValue(ds))
    ensures SortKey(ds + "_" + rest) == DigitsValue(ds)
  {
    assert '_' !in ds;
    BeforeUnique(ds, '_', rest);
    ParseIntDigits(ds);
  }

  lemma ExampleKeyTwo() ensures SortKey("2_a.png") == 2 {
    OrdinalOfDigits("2", "a.png");
    assert "2" + "_" + "a.png" == "2_a.png";
  }

  lemma ExampleKeyTen() ensures SortKey("10_b.png") == 10 {
    TenName();
    OrdinalOfDigits("10", "b.png");
    TenValue();
  }

  /** The literal `"10_b.png"` as digits, `_` and rest, proved apart so that `ExampleKeyTen` need not expand the literals itself. */
  lemma TenName() ensures "10" + "_" + "b.png" == "10_b.png" {
  }

  /** The decimal value of `"10"`, proved apart for the same reason. */
  lemma TenValue() ensures DigitsValue("10") == 10 {
    assert "10"[..1] == "1";
  }

  /**
   * The ordering is numeric, not lexical: in any successful listing, `2_a.png`
   * comes before `10_b.png`, although "10_b.png" < "2_a.png" as strings.
   */
  lemma NumericNotLexical(listing: seq<string>, i: nat, j: nat)
    requires ListImages(listing).Ok?
    requires i < |ListImages(listing).value| && j < |ListImages(listing).value|
    requires ListImages(listing).value[i] == "2_a.png"
    requires ListImages(listing).value[j] == "10_b.png"
    ensures i < j
  {
    ExampleKeyTwo();
    ExampleKeyTen();
  }

  /** A PNG name with no integer before its first `_` makes the listing fail. */
  lemma ListImagesRejects()
    ensures ListImages(["notes.txt", "7.png"]) == Err(InvalidLiteral("7.png"))
  {
    assert !IsPng("notes.txt");
    assert PngNames(["notes.txt", "7.png"]) == ["7.png"];
    BeforeUnique("7.png", '_', "");
    assert Before("7.png", '_') == "7.png";
    assert TrimEnd(TrimStart("7.png")) == "7.png";
    assert ParseInt("7.png").None? by {
      assert !IsDigit("7.png"[1]);
    }
  }
}
