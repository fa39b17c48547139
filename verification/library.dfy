/** The pure part of `split_library` in split-excalidraw-library.py: every
    library item yields a reference record of its name and the file name it
    is saved under, and the records are sorted by name for the index. The
    file writes and the index rendering are not modelled. */
module Library {
  import opened Wrappers
  import opened JsonValue
  import opened Text
  import opened Seqs
  import opened Sanitize

  /** One entry of the icon list: an icon's name and its file name. */
  datatype IconRef = IconRef(name: string, filename: string)

  /** Why `split_library` stops on a decoded library. */
  datatype LibraryError =
    | MissingLibraryItems          // the top-level object has no `libraryItems`
    | NotALibrary                  // the top level is not an object
    | ItemsNotIterable             // `libraryItems` is null, a boolean or a number
    | ItemNotAnObject(index: nat)  // `item.get` on a non-dict item
    | NameNotAString(index: nat)   // `sanitize_filename` on a non-string name

  const DefaultName: string := "Unnamed"
  const Extension: string := ".json"

  /** The item's `name` member, or `Unnamed` when it has none. */
  function IconName(item: map<string, Json>): Json {
    if "name" in item then item["name"] else JStr(DefaultName)
  }

  /** An item the loop can name: an object whose `name`, or the default,
      is a string (`sanitize_filename` fails on anything else). */
  predicate Usable(item: Json) {
    item.JObj? && IconName(item.fields).JStr?
  }

  /** The name of a usable item. */
  function NameOf(item: Json): string
    requires Usable(item)
  {
    IconName(item.fields).s
  }

  /** The name of the item at position `index`, or why the loop stops there. */
  function ItemName(item: Json, index: nat): (r: Result<string, LibraryError>)
    ensures r.Success? <==> Usable(item)
    ensures !item.JObj? ==> r == Failure(ItemNotAnObject(index))
    ensures item.JObj? && !Usable(item) ==> r == Failure(NameNotAString(index))
    ensures r.Success? && "name" !in item.fields ==> r.value == DefaultName
    ensures r.Success? && "name" in item.fields ==> r.value == item.fields["name"].s
  {
    if !item.JObj? then Failure(ItemNotAnObject(index))
    else
      var name := IconName(item.fields);
      if !name.JStr? then Failure(NameNotAString(index))
      else Success(name.s)
  }

  /** Item `i` is the first item the loop cannot name. */
  predicate FirstUnusable(items: seq<Json>, i: int) {
    0 <= i < |items| && !Usable(items[i]) && forall j :: 0 <= j < i ==> Usable(items[j])
  }

  /** The first unusable item after a usable head is the first unusable
      item of the whole list, one position later. */
  lemma FirstUnusableCons(items: seq<Json>, j: int)
    requires |items| > 0 && Usable(items[0]) && FirstUnusable(items[1..], j)
    ensures FirstUnusable(items, j + 1) && items[1..][j] == items[j + 1]
  {
    forall k | 0 <= k < j + 1
      ensures Usable(items[k])
    {
      if k > 0 {
        assert items[k] == items[1..][k - 1];
      }
    }
  }

  /** The names the loop over `library_items` reads, stopping at the first
      failing item: it succeeds exactly when every item is usable, and then
      holds each item's name at the item's position. */
  function ItemNames(items: seq<Json>, start: nat): (r: Result<seq<string>, LibraryError>)
    ensures r.Success? <==> forall x :: x in items ==> Usable(x)
    ensures r.Success? ==> |r.value| == |items|
    ensures r.Success? ==> forall i :: 0 <= i < |items| ==> r.value[i] == NameOf(items[i])
    ensures r.Failure? ==> exists i :: FirstUnusable(items, i) && ItemName(items[i], start + i) == Failure(r.error)
    decreases |items|
  {
    if |items| == 0 then Success([])
    else
      var head := ItemName(items[0], start);
      if head.Failure? then
        assert items[0] in items && FirstUnusable(items, 0);
        Failure(head.error)
      else
        var tail := ItemNames(items[1..], start + 1);
        if tail.Failure? then
          assert exists x :: x in items && !Usable(x) by {
            var x :| x in items[1..] && !Usable(x);
            assert x in items;
          }
          assert exists i :: FirstUnusable(items, i) && ItemName(items[i], start + i) == Failure(tail.error) by {
            var j :| FirstUnusable(items[1..], j) && ItemName(items[1..][j], start + 1 + j) == Failure(tail.error);
            FirstUnusableCons(items, j);
          }
          Failure(tail.error)
        else
          var r := [head.value] + tail.value;
          NamesCons(items, r);
          Success(r)
  }

  /** The names of an item list are its head's name followed by the names of
      the rest. */
  lemma NamesCons(items: seq<Json>, r: seq<string>)
    requires |items| > 0 && |r| == |items|
    requires Usable(items[0]) && r[0] == NameOf(items[0])
    requires forall x :: x in items[1..] ==> Usable(x)
    requires forall i :: 0 <= i < |items| - 1 ==> r[1..][i] == NameOf(items[1..][i])
    ensures forall x :: x in items ==> Usable(x)
    ensures forall i :: 0 <= i < |items| ==> r[i] == NameOf(items[i])
  {
    assert items == [items[0]] + items[1..];
    forall i | 1 <= i < |items|
      ensures r[i] == NameOf(items[i])
    {
      assert r[i] == r[1..][i - 1];
      assert items[i] == items[1..][i - 1];
    }
  }

  /** The reference for one icon: its name and the sanitised name with the
      `.json` extension. */
  function RefFor(isWord: char -> bool, name: string): IconRef {
    IconRef(name, SanitizeFilename(isWord, name) + Extension)
  }

  /** A record as the loop builds it. */
  predicate WellNamed(isWord: char -> bool, e: IconRef) {
    e.filename == SanitizeFilename(isWord, e.name) + Extension
  }

  /** One record per name, in order. */
  function MakeRefs(isWord: char -> bool, names: seq<string>): (r: seq<IconRef>)
    ensures |r| == |names|
    ensures forall i :: 0 <= i < |names| ==> r[i].name == names[i] && WellNamed(isWord, r[i])
  {
    seq(|names|, i requires 0 <= i < |names| => RefFor(isWord, names[i]))
  }

  /** What `for item in library_items` iterates over: a list's elements; an
      empty string or dict yields nothing, a non-empty one yields strings
      (so the first `item.get` fails); anything else is not iterable. */
  function LibraryItems(v: Json): (r: Result<seq<Json>, LibraryError>)
    ensures v.JList? ==> r == Success(v.items)
    ensures v.JNull? || IsNumber(v) ==> r == Failure(ItemsNotIterable)
    ensures r.Success? && !v.JList? ==> forall x :: x in r.value ==> !x.JObj?
  {
    match v
    case JList(xs) => Success(xs)
    case JStr(s) => if s == "" then Success([]) else Success([JStr([s[0]])])
    case JObj(m) => if m == map[] then Success([]) else Success([JStr(Least(m.Keys))])
    case _ => Failure(ItemsNotIterable)
  }

  // ---------------------------------------------------------------------
  // Sorting by name

  predicate SortedByName(s: seq<IconRef>) {
    forall i, j :: 0 <= i < j < |s| ==> Le(s[i].name, s[j].name)
  }

  /** A record no greater than every record of a sorted list can head it. */
  lemma SortedCons(h: IconRef, t: seq<IconRef>)
    requires SortedByName(t)
    requires forall y :: y in t ==> Le(h.name, y.name)
    ensures SortedByName([h] + t)
  {
    forall i, j | 0 <= i < j < |[h] + t|
      ensures Le(([h] + t)[i].name, ([h] + t)[j].name)
    {
      assert ([h] + t)[j] == t[j - 1];
      if i > 0 {
        assert ([h] + t)[i] == t[i - 1];
      }
    }
  }

  /** Inserts `x` after the leading records whose names are at most its
      own, so records with equal names keep their order. */
  function Insert(x: IconRef, s: seq<IconRef>): seq<IconRef>
    decreases |s|
  {
    if |s| == 0 then [x]
    else if Le(s[0].name, x.name) then [s[0]] + Insert(x, s[1..])
    else [x] + s
  }

  /** Insertion adds exactly one record. */
  lemma {:induction false} InsertAdds(x: IconRef, s: seq<IconRef>)
    ensures multiset(Insert(x, s)) == multiset(s) + multiset{x}
    decreases |s|
  {
    if |s| > 0 && Le(s[0].name, x.name) {
      InsertAdds(x, s[1..]);
      assert s == [s[0]] + s[1..];
    }
  }

  /** Insertion into a sorted list keeps it sorted. */
  lemma {:induction false} InsertSorted(x: IconRef, s: seq<IconRef>)
    requires SortedByName(s)
    ensures SortedByName(Insert(x, s))
    decreases |s|
  {
    if |s| > 0 {
      if Le(s[0].name, x.name) {
        var rest := Insert(x, s[1..]);
        InsertSorted(x, s[1..]);
        InsertAdds(x, s[1..]);
        forall y | y in rest
          ensures Le(s[0].name, y.name)
        {
          assert y in multiset(rest);
          if y != x {
            assert y in s[1..];
          }
        }
        SortedCons(s[0], rest);
      } else {
        LeTotal(s[0].name, x.name);
        forall y | y in s
          ensures Le(x.name, y.name)
        {
          if y != s[0] {
            LeTransitive(x.name, s[0].name, y.name);
          }
        }
        SortedCons(x, s);
      }
    }
  }

  /** `icon_list.sort(key=lambda x: x['name'])`: a stable sort by name,
      here an insertion sort. */
  function SortByName(s: seq<IconRef>): (r: seq<IconRef>)
    ensures SortedByName(r)
    ensures multiset(r) == multiset(s)
    decreases |s|
  {
    if |s| == 0 then []
    else
      var init, last := s[..|s| - 1], s[|s| - 1];
      assert s == init + [last];
      var sorted := SortByName(init);
      InsertSorted(last, sorted);
      InsertAdds(last, sorted);
      Insert(last, sorted)
  }

  /** The records carrying the name `n`, as a function value for filtering. */
  function NameIs(n: string): IconRef -> bool {
    (e: IconRef) => e.name == n
  }

  /** Inserting `x` appends it to the records sharing its name and leaves
      the records of every other name as they were. */
  lemma {:induction false} InsertKeepsNameOrder(x: IconRef, s: seq<IconRef>, n: string)
    requires SortedByName(s)
    ensures Filter(Insert(x, s), NameIs(n)) == Filter(s, NameIs(n)) + Filter([x], NameIs(n))
    decreases |s|
  {
    var p := NameIs(n);
    if |s| > 0 {
      if Le(s[0].name, x.name) {
        InsertKeepsNameOrder(x, s[1..], n);
        InsertBehindHead(x, s, n);
      } else {
        InsertInFront(x, s, n);
      }
    }
  }

  /** The case of `InsertKeepsNameOrder` where `x` goes behind the head. */
  lemma InsertBehindHead(x: IconRef, s: seq<IconRef>, n: string)
    requires SortedByName(s) && |s| > 0 && Le(s[0].name, x.name)
    requires Filter(Insert(x, s[1..]), NameIs(n)) == Filter(s[1..], NameIs(n)) + Filter([x], NameIs(n))
    ensures Filter(Insert(x, s), NameIs(n)) == Filter(s, NameIs(n)) + Filter([x], NameIs(n))
  {
    assert Insert(x, s) == [s[0]] + Insert(x, s[1..]);
    assert s == [s[0]] + s[1..];
    FilterConsSuffix(s[0], Insert(x, s[1..]), s[1..], Filter([x], NameIs(n)), NameIs(n));
  }

  /** The case of `InsertKeepsNameOrder` where `x` goes in front. */
  lemma InsertInFront(x: IconRef, s: seq<IconRef>, n: string)
    requires SortedByName(s) && |s| > 0 && !Le(s[0].name, x.name)
    ensures Filter(Insert(x, s), NameIs(n)) == Filter(s, NameIs(n)) + Filter([x], NameIs(n))
  {
    var p := NameIs(n);
    assert Insert(x, s) == [x] + s;
    FilterConcat([x], s, p);
    if x.name == n {
      NamesAboveHead(x, s);
      FilterNone(s, p);
    } else {
      assert Filter([x], p) == [];
    }
  }

  /** When `x` goes in front of a sorted list, no record of the list
      shares its name. */
  lemma NamesAboveHead(x: IconRef, s: seq<IconRef>)
    requires SortedByName(s) && |s| > 0 && !Le(s[0].name, x.name)
    ensures forall y :: y in s ==> y.name != x.name
  {
    LeReflexive(x.name);
    forall y | y in s
      ensures y.name != x.name
    {
      var j :| 0 <= j < |s| && s[j] == y;
      assert j == 0 || Le(s[0].name, y.name);
    }
  }

  /** The sort is stable: for every name, the records with that name appear
      in the sorted list in the order they had before. */
  lemma {:induction false} SortIsStable(s: seq<IconRef>, n: string)
    ensures Filter(SortByName(s), NameIs(n)) == Filter(s, NameIs(n))
    decreases |s|
  {
    if |s| > 0 {
      var init, last := s[..|s| - 1], s[|s| - 1];
      SortIsStable(init, n);
      InsertKeepsNameOrder(last, SortByName(init), n);
      assert s == init + [last];
      FilterConcat(init, [last], NameIs(n));
    }
  }

  // ---------------------------------------------------------------------
  // The whole mapping

  /** The reference list of a decoded library file: one record per item, in
      name order. */
  function SplitLibrary(isWord: char -> bool, library: Json): (r: Result<seq<IconRef>, LibraryError>)
    ensures !library.JObj? ==> r == Failure(NotALibrary)
    ensures library.JObj? && "libraryItems" !in library.fields ==> r == Failure(MissingLibraryItems)
    ensures r.Success? ==> SortedByName(r.value)
    ensures r.Success? ==> forall e :: e in r.value ==> WellNamed(isWord, e)
    ensures library.JObj? && "libraryItems" in library.fields && library.fields["libraryItems"].JList? ==>
              var items := library.fields["libraryItems"].items;
              && (r.Success? <==> forall x :: x in items ==> Usable(x))
              && (r.Success? ==> multiset(r.value) == multiset(MakeRefs(isWord, ItemNames(items, 0).value)))
  {
    if !library.JObj? then Failure(NotALibrary)
    else if "libraryItems" !in library.fields then Failure(MissingLibraryItems)
    else
      var items :- LibraryItems(library.fields["libraryItems"]);
      var names :- ItemNames(items, 0);
      var refs := MakeRefs(isWord, names);
      var sorted := SortByName(refs);
      assert forall e :: e in sorted ==> e in refs by {
        forall e | e in sorted ensures e in refs {
          assert e in multiset(sorted);
        }
      }
      Success(sorted)
  }

  /** The index has one record per item, and the records with a given name
      are those of the items with that name, in item order. */
  lemma SplitLibraryKeepsItems(isWord: char -> bool, library: Json, n: string)
    requires library.JObj? && "libraryItems" in library.fields && library.fields["libraryItems"].JList?
    requires SplitLibrary(isWord, library).Success?
    ensures var items := library.fields["libraryItems"].items;
            var r := SplitLibrary(isWord, library).value;
            && |r| == |items|
            && Filter(r, NameIs(n)) == Filter(MakeRefs(isWord, ItemNames(items, 0).value), NameIs(n))
  {
    var items := library.fields["libraryItems"].items;
    var refs := MakeRefs(isWord, ItemNames(items, 0).value);
    var r := SplitLibrary(isWord, library).value;
    assert r == SortByName(refs);
    assert |r| == |multiset(r)| == |multiset(refs)| == |refs|;
    SortIsStable(refs, n);
  }
}
