/**
  The recommender of `src/engine.rs`: a knowledge base that maps every page
  to its categories and every category to its pages, built line by line from
  a knowledge file, and a query that gathers the pages of the queried
  categories, keeps one score per page against the query, and orders them with the
  three-way quicksort of module Sbsqsort.

  `BTreeMap<String, BTreeSet<String>>` becomes `map<string, set<string>>`.
  Iteration over a `BTreeSet` is modelled as iteration in an arbitrary order
  (every result below holds whatever order is used), except where the order
  reaches the output: the keys of the ranking map are collected in ascending
  order, as `BTreeMap::keys` does, before they are sorted by score.
*/
module Engine {
  import Sbsqsort

  // ---------------------------------------------------------------------
  // Splitting a knowledge line (`line.split(" ")`, line 52)
  // ---------------------------------------------------------------------

  /**
    `line.split(" ")`: the pieces between single spaces, so that two
    adjacent spaces give an empty piece. There is always at least one piece,
    which is why the `0` arm at line 54 is never taken.
  */
  function Split(s: string): (r: seq<string>)
    ensures |r| >= 1
  {
    if |s| == 0 then [""]
    else
      var rest := Split(s[1..]);
      if s[0] == ' ' then [""] + rest
      else [[s[0]] + rest[0]] + rest[1..]
  }

  /** There is one more piece than the line has spaces, and no piece holds a space. */
  lemma {:induction false} SplitCount(s: string)
    ensures |Split(s)| == multiset(s)[' '] + 1
    ensures forall t :: t in Split(s) ==> ' ' !in t
  {
    if |s| > 0 {
      SplitCount(s[1..]);
      assert s == [s[0]] + s[1..];
      var rest := Split(s[1..]);
      if s[0] != ' ' {
        assert forall t :: t in rest[1..] ==> t in rest;
      }
    }
  }

  /** The pieces put back together with one space between neighbours. */
  function Join(ts: seq<string>): string
    requires |ts| >= 1
  {
    if |ts| == 1 then ts[0] else ts[0] + " " + Join(ts[1..])
  }

  /** Splitting loses nothing: the pieces joined by spaces give the line back. */
  lemma {:induction false} JoinSplit(s: string)
    ensures Join(Split(s)) == s
  {
    if |s| > 0 {
      var c, tail := s[0], s[1..];
      assert s == [c] + tail;
      var rest := Split(tail);
      JoinSplit(tail);
      var ts := Split(s);
      if c == ' ' {
        assert ts == [""] + rest && ts[1..] == rest;
        assert Join(ts) == "" + " " + tail;
      } else if |rest| == 1 {
        assert ts == [[c] + rest[0]];
        assert Join(rest) == rest[0];
      } else {
        assert ts == [[c] + rest[0]] + rest[1..] && ts[1..] == rest[1..];
        var more := Join(rest[1..]);
        assert Join(rest) == rest[0] + " " + more;
        assert Join(ts) == ([c] + rest[0]) + " " + more;
        assert ([c] + rest[0]) + " " + more == [c] + (rest[0] + " " + more);
      }
    }
  }

  /** A piece without spaces in front of the rest of a line extends its first piece. */
  lemma {:induction false} SplitPrefix(t: string, s: string)
    requires ' ' !in t
    ensures Split(t + s) == [t + Split(s)[0]] + Split(s)[1..]
  {
    if |t| == 0 {
      assert t + s == s;
      assert t + Split(s)[0] == Split(s)[0];
      assert Split(s) == [Split(s)[0]] + Split(s)[1..];
    } else {
      assert (t + s)[1..] == t[1..] + s;
      assert t[0] != ' ' && ' ' !in t[1..];
      SplitPrefix(t[1..], s);
      assert [t[0]] + (t[1..] + Split(s)[0]) == t + Split(s)[0];
    }
  }

  /** Pieces without spaces, joined and split again, come back unchanged. */
  lemma {:induction false} SplitJoin(ts: seq<string>)
    requires |ts| >= 1 && forall t :: t in ts ==> ' ' !in t
    ensures Split(Join(ts)) == ts
  {
    if |ts| == 1 {
      SplitPrefix(ts[0], "");
      assert ts[0] + "" == ts[0];
    } else {
      SplitJoin(ts[1..]);
      var j := Join(ts[1..]);
      assert Join(ts) == ts[0] + (" " + j);
      SplitPrefix(ts[0], " " + j);
      assert (" " + j)[1..] == j;
      assert Split(" " + j) == [""] + ts[1..];
      assert ts[0] + "" == ts[0];
    }
  }

  // ---------------------------------------------------------------------
  // The knowledge base (lines 23-86)
  // ---------------------------------------------------------------------

  /** `Recommender`: categories to their pages, and pages to their categories. */
  datatype Recommender = Recommender(categories: map<string, set<string>>, pages: map<string, set<string>>)

  /** The set stored under k, or the empty set when k is absent (`entry(k).or_insert(BTreeSet::new())`). */
  function Get(m: map<string, set<string>>, k: string): set<string>
  {
    if k in m then m[k] else {}
  }

  /** The entries of a sequence as a set. */
  function Elems(s: seq<string>): set<string>
  {
    set x | x in s
  }

  /** Lines 73-76 for one category c of the page `key`. */
  function AddCategory(r: Recommender, key: string, c: string): (r': Recommender)
    ensures r'.pages.Keys == r.pages.Keys + {key} && r'.categories.Keys == r.categories.Keys + {c}
    ensures r'.pages[key] == Get(r.pages, key) + {c} && r'.categories[c] == Get(r.categories, c) + {key}
    ensures forall p :: p != key ==> Get(r'.pages, p) == Get(r.pages, p)
    ensures forall d :: d != c ==> Get(r'.categories, d) == Get(r.categories, d)
  {
    Recommender(r.categories[c := Get(r.categories, c) + {key}],
                r.pages[key := Get(r.pages, key) + {c}])
  }

  /** The loop of lines 70-77 over the categories `cats` of the page `key`. */
  function AddCategories(r: Recommender, key: string, cats: seq<string>): (r': Recommender)
    ensures r'.pages.Keys == r.pages.Keys + (if |cats| == 0 then {} else {key})
    ensures r'.categories.Keys == r.categories.Keys + Elems(cats)
  {
    if |cats| == 0 then r
    else
      var init, last := cats[..|cats| - 1], cats[|cats| - 1];
      assert Elems(cats) == Elems(init) + {last} by {
        assert cats == init + [last];
      }
      AddCategory(AddCategories(r, key, init), key, last)
  }

  /**
    The body of the loop of lines 51-78 for one line: a line with fewer than
    two pieces is skipped; otherwise the first piece names the page, which
    gets an entry (line 67), and every further piece is one of its categories.
  */
  function Ingest(r: Recommender, line: string): (r': Recommender)
    ensures r.pages.Keys <= r'.pages.Keys && r.categories.Keys <= r'.categories.Keys
    ensures forall p :: p in r.pages ==> r.pages[p] <= r'.pages[p]
    ensures forall c :: c in r.categories ==> r.categories[c] <= r'.categories[c]
    ensures NoEmptySets(r) ==> NoEmptySets(r')
  {
    var data := Split(line);
    if |data| < 2 then r
    else
      EnterAddPagesGrow(r, data[0], data[1..]);
      EnterAddCategoriesGrow(r, data[0], data[1..]);
      AddCategories(Enter(r, data[0]), data[0], data[1..])
  }

  /** Line 67: the page `key` gets an entry, empty unless it has one already. */
  function Enter(r: Recommender, key: string): (r': Recommender)
    ensures r'.categories == r.categories
    ensures r'.pages.Keys == r.pages.Keys + {key}
    ensures forall p :: Get(r'.pages, p) == Get(r.pages, p)
  {
    if key in r.pages then r else r.(pages := r.pages[key := {}])
  }

  /** The knowledge base `load_knowlege` builds from the lines of the file, in order. */
  function Load(lines: seq<string>): (r: Recommender)
    ensures NoEmptySets(r)
  {
    if |lines| == 0 then Recommender(map[], map[])
    else Ingest(Load(lines[..|lines| - 1]), lines[|lines| - 1])
  }

  /**
    `load_knowlege` (lines 40-86) on the lines of the knowledge file: the
    same loops over the lines and over the categories of each line, updating
    the two maps in place.
  */
  method LoadKnowledge(lines: seq<string>) returns (r: Recommender)
    ensures r == Load(lines)
  {
    var categories: map<string, set<string>> := map[];
    var pages: map<string, set<string>> := map[];
    for n := 0 to |lines|
      invariant Recommender(categories, pages) == Load(lines[..n])
    {
      assert lines[..n + 1][..n] == lines[..n];
      var data := Split(lines[n]);
      // the `0` arm of line 54 cannot happen (Split returns a piece); the
      // `1` arm skips a page without categories
      if |data| < 2 {
        continue;
      }
      var key := data[0];
      if key !in pages {
        pages := pages[key := {}];
      }
      ghost var entered := Recommender(categories, pages);
      var cats := data[1..];
      for t := 0 to |cats|
        invariant key in pages
        invariant Recommender(categories, pages) == AddCategories(entered, key, cats[..t])
      {
        AddCategoriesStep(entered, key, cats, t);
        var category := cats[t];
        pages := pages[key := pages[key] + {category}];
        var members := if category in categories then categories[category] else {};
        categories := categories[category := members + {key}];
      }
      assert cats[..|cats|] == cats;
    }
    assert lines[..|lines|] == lines;
    r := Recommender(categories, pages);
  }

  /** One more category: the step of the loop of lines 70-77. */
  lemma AddCategoriesStep(r: Recommender, key: string, cats: seq<string>, t: int)
    requires 0 <= t < |cats|
    ensures AddCategories(r, key, cats[..t + 1]) == AddCategory(AddCategories(r, key, cats[..t]), key, cats[t])
  {
    assert cats[..t + 1][..t] == cats[..t];
  }

  /** Adding the categories `cats` of `key`: how the sets of the page map change. */
  lemma {:induction false} AddCategoriesPages(r: Recommender, key: string, cats: seq<string>)
    ensures forall p :: Get(AddCategories(r, key, cats).pages, p) ==
                        Get(r.pages, p) + (if p == key then Elems(cats) else {})
  {
    if |cats| > 0 {
      var init, last := cats[..|cats| - 1], cats[|cats| - 1];
      AddCategoriesPages(r, key, init);
      assert cats == init + [last];
      assert Elems(cats) == Elems(init) + {last};
    }
  }

  /** Adding the categories `cats` of `key`: how the sets of the category map change. */
  lemma {:induction false} AddCategoriesCategories(r: Recommender, key: string, cats: seq<string>)
    ensures forall c :: Get(AddCategories(r, key, cats).categories, c) ==
                        Get(r.categories, c) + (if c in cats then {key} else {})
  {
    if |cats| > 0 {
      var init, last := cats[..|cats| - 1], cats[|cats| - 1];
      AddCategoriesCategories(r, key, init);
      assert cats == init + [last];
      var before := AddCategories(r, key, init);
      assert AddCategories(r, key, cats) == AddCategory(before, key, last);
      forall c
        ensures c in cats <==> c in init || c == last
      {
      }
    }
  }

  /** Entering a page and adding a non-empty list of its categories only grows the page map. */
  lemma EnterAddPagesGrow(r: Recommender, key: string, cats: seq<string>)
    requires |cats| > 0
    ensures var r' := AddCategories(Enter(r, key), key, cats);
      && r.pages.Keys <= r'.pages.Keys
      && (forall p :: p in r.pages ==> r.pages[p] <= r'.pages[p])
      && ((forall p :: p in r.pages ==> r.pages[p] != {}) ==> (forall p :: p in r'.pages ==> r'.pages[p] != {}))
  {
    var entered := Enter(r, key);
    var r' := AddCategories(entered, key, cats);
    AddCategoriesPages(entered, key, cats);
    assert cats[0] in Elems(cats);
    forall p | p in r'.pages
      ensures Get(r'.pages, p) == Get(entered.pages, p) + (if p == key then Elems(cats) else {})
    {
    }
    forall p | p in r.pages
      ensures r.pages[p] <= r'.pages[p]
    {
      assert Get(entered.pages, p) == r.pages[p];
    }
  }

  /** Entering a page and adding its categories only grows the category map. */
  lemma EnterAddCategoriesGrow(r: Recommender, key: string, cats: seq<string>)
    ensures var r' := AddCategories(Enter(r, key), key, cats);
      && r.categories.Keys <= r'.categories.Keys
      && (forall c :: c in r.categories ==> r.categories[c] <= r'.categories[c])
      && ((forall c :: c in r.categories ==> r.categories[c] != {}) ==> (forall c :: c in r'.categories ==> r'.categories[c] != {}))
  {
    var entered := Enter(r, key);
    var r' := AddCategories(entered, key, cats);
    AddCategoriesCategories(entered, key, cats);
    forall c | c in r.categories
      ensures r.categories[c] <= r'.categories[c]
    {
      assert Get(r'.categories, c) == Get(r.categories, c) + (if c in cats then {key} else {});
    }
  }

  /** Two maps with the same keys and the same sets under every key are equal. */
  lemma SameMap(m1: map<string, set<string>>, m2: map<string, set<string>>)
    requires m1.Keys == m2.Keys
    requires forall k :: Get(m1, k) == Get(m2, k)
    ensures m1 == m2
  {
    forall k | k in m1
      ensures m1[k] == m2[k]
    {
      assert Get(m1, k) == Get(m2, k);
    }
  }

  /** Reading a line twice changes nothing the first reading did not. */
  lemma IngestIdempotent(r: Recommender, line: string)
    ensures Ingest(Ingest(r, line), line) == Ingest(r, line)
  {
    var data := Split(line);
    if |data| >= 2 {
      var key, cats := data[0], data[1..];
      var once := Ingest(r, line);
      var entered := (if key in r.pages then r else r.(pages := r.pages[key := {}]));
      AddCategoriesPages(entered, key, cats);
      AddCategoriesCategories(entered, key, cats);
      assert key in once.pages;
      AddCategoriesPages(once, key, cats);
      AddCategoriesCategories(once, key, cats);
      var twice := Ingest(once, line);
      assert twice == AddCategories(once, key, cats);
      SameMap(twice.pages, once.pages);
      SameMap(twice.categories, once.categories);
    }
  }

  /** A line without a space names no category and is skipped. */
  lemma IngestWithoutCategories(r: Recommender, line: string)
    requires ' ' !in line
    ensures Ingest(r, line) == r
  {
    SplitCount(line);
  }

  /** The (page, category) pairs one line contributes. */
  function LinePairs(line: string): set<(string, string)>
  {
    var data := Split(line);
    if |data| < 2 then {} else set c | c in data[1..] :: (data[0], c)
  }

  /** The (page, category) pairs all the lines contribute. */
  function AllPairs(lines: seq<string>): set<(string, string)>
  {
    if |lines| == 0 then {}
    else AllPairs(lines[..|lines| - 1]) + LinePairs(lines[|lines| - 1])
  }

  function PagesOf(ps: set<(string, string)>): set<string>
  {
    set x | x in ps :: x.0
  }

  function CategoriesOf(ps: set<(string, string)>): set<string>
  {
    set x | x in ps :: x.1
  }

  function CategoriesOfPage(ps: set<(string, string)>, p: string): set<string>
  {
    set x | x in ps && x.0 == p :: x.1
  }

  function PagesOfCategory(ps: set<(string, string)>, c: string): set<string>
  {
    set x | x in ps && x.1 == c :: x.0
  }

  /** The knowledge base that holds exactly the pairs ps, indexed both ways. */
  function FromPairs(ps: set<(string, string)>): Recommender
  {
    Recommender(map c | c in CategoriesOf(ps) :: PagesOfCategory(ps, c),
                map p | p in PagesOf(ps) :: CategoriesOfPage(ps, p))
  }

  /** Looking up any page or category of FromPairs(ps). */
  lemma FromPairsGet(ps: set<(string, string)>)
    ensures FromPairs(ps).pages.Keys == PagesOf(ps)
    ensures FromPairs(ps).categories.Keys == CategoriesOf(ps)
    ensures forall p :: Get(FromPairs(ps).pages, p) == CategoriesOfPage(ps, p)
    ensures forall c :: Get(FromPairs(ps).categories, c) == PagesOfCategory(ps, c)
  {
  }

  /** The pairs of one line with at least one category, seen from both sides. */
  lemma LinePairsShape(line: string)
    requires |Split(line)| >= 2
    ensures var data := Split(line);
      && PagesOf(LinePairs(line)) == {data[0]}
      && CategoriesOf(LinePairs(line)) == Elems(data[1..])
      && (forall p :: CategoriesOfPage(LinePairs(line), p) == if p == data[0] then Elems(data[1..]) else {})
      && (forall c :: PagesOfCategory(LinePairs(line), c) == if c in data[1..] then {data[0]} else {})
  {
    var data := Split(line);
    var cats := data[1..];
    assert (data[0], cats[0]) in LinePairs(line);
  }

  /** The four views of a union of pairs are the unions of the views. */
  lemma UnionViews(ps: set<(string, string)>, qs: set<(string, string)>)
    ensures PagesOf(ps + qs) == PagesOf(ps) + PagesOf(qs)
    ensures CategoriesOf(ps + qs) == CategoriesOf(ps) + CategoriesOf(qs)
    ensures forall p :: CategoriesOfPage(ps + qs, p) == CategoriesOfPage(ps, p) + CategoriesOfPage(qs, p)
    ensures forall c :: PagesOfCategory(ps + qs, c) == PagesOfCategory(ps, c) + PagesOfCategory(qs, c)
  {
  }

  /** The page map once the categories `cats` of `key` are added to FromPairs(ps). */
  lemma EnteredPages(ps: set<(string, string)>, key: string, cats: seq<string>)
    requires |cats| > 0
    ensures AddCategories(Enter(FromPairs(ps), key), key, cats).pages.Keys == PagesOf(ps) + {key}
    ensures forall p :: Get(AddCategories(Enter(FromPairs(ps), key), key, cats).pages, p) ==
                        CategoriesOfPage(ps, p) + (if p == key then Elems(cats) else {})
  {
    FromPairsGet(ps);
    var entered := Enter(FromPairs(ps), key);
    assert entered.pages.Keys == PagesOf(ps) + {key};
    assert forall p :: Get(entered.pages, p) == CategoriesOfPage(ps, p);
    AddCategoriesPages(entered, key, cats);
  }

  /** The category map once the categories `cats` of `key` are added to FromPairs(ps). */
  lemma EnteredCategories(ps: set<(string, string)>, key: string, cats: seq<string>)
    ensures AddCategories(Enter(FromPairs(ps), key), key, cats).categories.Keys == CategoriesOf(ps) + Elems(cats)
    ensures forall c :: Get(AddCategories(Enter(FromPairs(ps), key), key, cats).categories, c) ==
                        PagesOfCategory(ps, c) + (if c in cats then {key} else {})
  {
    FromPairsGet(ps);
    var entered := Enter(FromPairs(ps), key);
    assert entered.categories == FromPairs(ps).categories;
    AddCategoriesCategories(entered, key, cats);
  }

  /** The page map of the pairs with one more line's pairs added. */
  lemma TargetPages(ps: set<(string, string)>, line: string)
    requires |Split(line)| >= 2
    ensures FromPairs(ps + LinePairs(line)).pages.Keys == PagesOf(ps) + {Split(line)[0]}
    ensures forall p :: Get(FromPairs(ps + LinePairs(line)).pages, p) ==
                        CategoriesOfPage(ps, p) + (if p == Split(line)[0] then Elems(Split(line)[1..]) else {})
  {
    FromPairsGet(ps + LinePairs(line));
    UnionViews(ps, LinePairs(line));
    LinePairsShape(line);
  }

  /** The category map of the pairs with one more line's pairs added. */
  lemma TargetCategories(ps: set<(string, string)>, line: string)
    requires |Split(line)| >= 2
    ensures FromPairs(ps + LinePairs(line)).categories.Keys == CategoriesOf(ps) + Elems(Split(line)[1..])
    ensures forall c :: Get(FromPairs(ps + LinePairs(line)).categories, c) ==
                        PagesOfCategory(ps, c) + (if c in Split(line)[1..] then {Split(line)[0]} else {})
  {
    FromPairsGet(ps + LinePairs(line));
    UnionViews(ps, LinePairs(line));
    LinePairsShape(line);
  }

  /** Reading a line with categories adds exactly its pairs to the page map. */
  lemma IngestPagesFromPairs(ps: set<(string, string)>, line: string)
    requires |Split(line)| >= 2
    ensures Ingest(FromPairs(ps), line).pages == FromPairs(ps + LinePairs(line)).pages
  {
    var data := Split(line);
    var after := Ingest(FromPairs(ps), line);
    assert after == AddCategories(Enter(FromPairs(ps), data[0]), data[0], data[1..]);
    EnteredPages(ps, data[0], data[1..]);
    TargetPages(ps, line);
    SameMap(after.pages, FromPairs(ps + LinePairs(line)).pages);
  }

  /** Reading a line with categories adds exactly its pairs to the category map. */
  lemma IngestCategoriesFromPairs(ps: set<(string, string)>, line: string)
    requires |Split(line)| >= 2
    ensures Ingest(FromPairs(ps), line).categories == FromPairs(ps + LinePairs(line)).categories
  {
    var data := Split(line);
    var after := Ingest(FromPairs(ps), line);
    assert after == AddCategories(Enter(FromPairs(ps), data[0]), data[0], data[1..]);
    EnteredCategories(ps, data[0], data[1..]);
    TargetCategories(ps, line);
    SameMap(after.categories, FromPairs(ps + LinePairs(line)).categories);
  }

  /** Reading a line adds exactly its pairs. */
  lemma IngestFromPairs(ps: set<(string, string)>, line: string)
    ensures Ingest(FromPairs(ps), line) == FromPairs(ps + LinePairs(line))
  {
    if |Split(line)| < 2 {
      assert ps + LinePairs(line) == ps;
    } else {
      IngestPagesFromPairs(ps, line);
      IngestCategoriesFromPairs(ps, line);
    }
  }

  /** The knowledge base holds exactly the pairs of all the lines. */
  lemma {:induction false} LoadFromPairs(lines: seq<string>)
    ensures Load(lines) == FromPairs(AllPairs(lines))
  {
    if |lines| == 0 {
      FromPairsGet({});
      SameMap(FromPairs({}).pages, map[]);
      SameMap(FromPairs({}).categories, map[]);
    } else {
      LoadFromPairs(lines[..|lines| - 1]);
      IngestFromPairs(AllPairs(lines[..|lines| - 1]), lines[|lines| - 1]);
    }
  }

  /** Every page of a category lists that category, and the other way round. */
  ghost predicate Consistent(r: Recommender)
  {
    forall p, c :: (p in r.pages && c in r.pages[p]) <==> (c in r.categories && p in r.categories[c])
  }

  /** No stored set is empty. */
  ghost predicate NoEmptySets(r: Recommender)
  {
    && (forall p :: p in r.pages ==> r.pages[p] != {})
    && (forall c :: c in r.categories ==> r.categories[c] != {})
  }

  /** Page p lists category c in FromPairs(ps), and c lists p, exactly when (p, c) is one of ps. */
  lemma PairStored(ps: set<(string, string)>, p: string, c: string)
    ensures (p in FromPairs(ps).pages && c in FromPairs(ps).pages[p]) <==> (p, c) in ps
    ensures (c in FromPairs(ps).categories && p in FromPairs(ps).categories[c]) <==> (p, c) in ps
  {
    if (p, c) in ps {
      assert p in PagesOf(ps) && c in CategoriesOf(ps);
      assert c in CategoriesOfPage(ps, p) && p in PagesOfCategory(ps, c);
    }
  }

  /** FromPairs(ps) stores no empty set. */
  lemma FromPairsNoEmptySets(ps: set<(string, string)>)
    ensures NoEmptySets(FromPairs(ps))
  {
    var r := FromPairs(ps);
    forall p | p in r.pages
      ensures r.pages[p] != {}
    {
      var x :| x in ps && x.0 == p;
      assert x.1 in CategoriesOfPage(ps, p);
    }
    forall c | c in r.categories
      ensures r.categories[c] != {}
    {
      var x :| x in ps && x.1 == c;
      assert x.0 in PagesOfCategory(ps, c);
    }
  }

  /** FromPairs(ps) stores exactly the pairs ps, the same way in both maps. */
  lemma FromPairsConsistent(ps: set<(string, string)>)
    ensures forall p, c :: (p in FromPairs(ps).pages && c in FromPairs(ps).pages[p]) <==> (p, c) in ps
    ensures Consistent(FromPairs(ps))
  {
    var r := FromPairs(ps);
    forall p, c
      ensures (p in r.pages && c in r.pages[p]) <==> (p, c) in ps
      ensures (c in r.categories && p in r.categories[c]) <==> (p, c) in ps
    {
      PairStored(ps, p, c);
    }
  }

  /** A pair belongs to all the lines exactly when one of the lines contributes it. */
  lemma {:induction false} AllPairsMember(lines: seq<string>, p: string, c: string)
    ensures (p, c) in AllPairs(lines) <==> exists k :: 0 <= k < |lines| && (p, c) in LinePairs(lines[k])
  {
    if |lines| > 0 {
      var init := lines[..|lines| - 1];
      AllPairsMember(init, p, c);
      assert forall k :: 0 <= k < |init| ==> init[k] == lines[k];
    }
  }

  /**
    The loaded knowledge base is consistent in both directions, stores no
    empty set, and lists category c for page p exactly when some line of
    the file names p first and c after it.
  */
  lemma LoadConsistent(lines: seq<string>)
    ensures Consistent(Load(lines)) && NoEmptySets(Load(lines))
    ensures forall p, c :: (p in Load(lines).pages && c in Load(lines).pages[p]) <==>
                           exists k :: 0 <= k < |lines| && (p, c) in LinePairs(lines[k])
  {
    LoadFromPairs(lines);
    FromPairsConsistent(AllPairs(lines));
    FromPairsNoEmptySets(AllPairs(lines));
    forall p, c
      ensures (p, c) in AllPairs(lines) <==> exists k :: 0 <= k < |lines| && (p, c) in LinePairs(lines[k])
    {
      AllPairsMember(lines, p, c);
    }
  }

  /** The pairs of two files together are the union of their pairs. */
  lemma {:induction false} AllPairsAppend(l1: seq<string>, l2: seq<string>)
    ensures AllPairs(l1 + l2) == AllPairs(l1) + AllPairs(l2)
    decreases |l2|
  {
    if |l2| > 0 {
      var init := l2[..|l2| - 1];
      AllPairsAppend(l1, init);
      assert (l1 + l2)[..|l1 + l2| - 1] == l1 + init;
    } else {
      assert l1 + l2 == l1;
    }
  }

  /**
    Loading two files one after the other gives the knowledge base of the
    union of their pairs; in particular loading a file twice over is the
    same as loading it once.
  */
  lemma LoadAppend(l1: seq<string>, l2: seq<string>)
    ensures Load(l1 + l2) == FromPairs(AllPairs(l1) + AllPairs(l2))
    ensures Load(l1 + l1) == Load(l1)
  {
    LoadFromPairs(l1 + l2);
    AllPairsAppend(l1, l2);
    LoadFromPairs(l1 + l1);
    AllPairsAppend(l1, l1);
    LoadFromPairs(l1);
    assert AllPairs(l1) + AllPairs(l1) == AllPairs(l1);
  }

  // ---------------------------------------------------------------------
  // The order of `String` keys
  // ---------------------------------------------------------------------

  /**
    The order of Rust's `String`: lexicographic, a proper prefix first.
    Comparing UTF-8 bytes and comparing code points give the same order,
    so the comparison is made on characters here.
  */
  predicate LexLess(a: string, b: string): (r: bool)
    ensures |a| < |b| && a == b[..|a|] ==> r
  {
    |b| > 0 && (|a| == 0 || a[0] < b[0] || (a[0] == b[0] && LexLess(a[1..], b[1..])))
  }

  lemma {:induction false} LexLessIrreflexive(a: string)
    ensures !LexLess(a, a)
  {
    if |a| > 0 {
      LexLessIrreflexive(a[1..]);
    }
  }

  lemma {:induction false} LexLessTransitive(a: string, b: string, c: string)
    requires LexLess(a, b) && LexLess(b, c)
    ensures LexLess(a, c)
  {
    if |a| > 0 && a[0] == b[0] && b[0] == c[0] {
      LexLessTransitive(a[1..], b[1..], c[1..]);
    }
  }

  lemma {:induction false} LexLessTotal(a: string, b: string)
    ensures a == b || LexLess(a, b) || LexLess(b, a)
  {
    if |a| > 0 && |b| > 0 && a[0] == b[0] {
      LexLessTotal(a[1..], b[1..]);
      if a[1..] == b[1..] {
        assert a == [a[0]] + a[1..] && b == [b[0]] + b[1..];
      }
    }
  }

  /** m is the least element of s. */
  predicate IsLeast(m: string, s: set<string>)
  {
    m in s && forall y :: y in s ==> y == m || LexLess(m, y)
  }

  /** Adding y to a set whose least element is m leaves y or m the least. */
  lemma LeastOfAdded(s: set<string>, m: string, y: string)
    requires IsLeast(m, s)
    ensures IsLeast(if LexLess(y, m) then y else m, s + {y})
  {
    LexLessTotal(m, y);
    if LexLess(y, m) {
      forall z | z in s + {y}
        ensures z == y || LexLess(y, z)
      {
        if z != y && z != m {
          LexLessTransitive(y, m, z);
        }
      }
    }
  }

  /** Every non-empty finite set of strings has a least element. */
  lemma {:induction false} LeastExists(s: set<string>)
    requires s != {}
    ensures exists m :: IsLeast(m, s)
    decreases |s|
  {
    var y :| y in s;
    if s == {y} {
      LexLessIrreflexive(y);
      assert IsLeast(y, s);
    } else {
      LeastExists(s - {y});
      var m :| IsLeast(m, s - {y});
      LeastOfAdded(s - {y}, m, y);
      assert s - {y} + {y} == s;
    }
  }

  /** A strictly ascending sequence holds each of its elements exactly once. */
  lemma {:induction false} AscendingOnce(ks: seq<string>)
    requires forall x, y :: 0 <= x < y < |ks| ==> LexLess(ks[x], ks[y])
    ensures forall p :: multiset(ks)[p] == if p in ks then 1 else 0
  {
    if |ks| > 0 {
      var init := ks[..|ks| - 1];
      AscendingOnce(init);
      assert ks == init + [ks[|ks| - 1]];
      LexLessIrreflexive(ks[|ks| - 1]);
      assert ks[|ks| - 1] !in init;
    }
  }

  // ---------------------------------------------------------------------
  // Similarity (lines 123-143)
  // ---------------------------------------------------------------------

  /**
    `found_in_both`: how many entries of the query `a` (counted with their
    repetitions) occur in the category set `b`. It never exceeds |a|.
  */
  function Found(a: seq<string>, b: set<string>): (f: nat)
    ensures f <= |a|
  {
    if |a| == 0 then 0
    else Found(a[..|a| - 1], b) + (if a[|a| - 1] in b then 1 else 0)
  }

  /** Nothing of the query is found exactly when no entry is in b. */
  lemma {:induction false} FoundNone(a: seq<string>, b: set<string>)
    ensures Found(a, b) == 0 <==> forall k :: 0 <= k < |a| ==> a[k] !in b
  {
    if |a| > 0 {
      FoundNone(a[..|a| - 1], b);
      assert forall k :: 0 <= k < |a| - 1 ==> a[..|a| - 1][k] == a[k];
    }
  }

  /** Everything of the query is found exactly when every entry is in b. */
  lemma {:induction false} FoundAll(a: seq<string>, b: set<string>)
    ensures Found(a, b) == |a| <==> forall k :: 0 <= k < |a| ==> a[k] in b
  {
    if |a| > 0 {
      FoundAll(a[..|a| - 1], b);
      assert forall k :: 0 <= k < |a| - 1 ==> a[..|a| - 1][k] == a[k];
    }
  }

  /** No entry repeats. */
  ghost predicate Distinct(a: seq<string>)
  {
    forall x, y :: 0 <= x < y < |a| ==> a[x] != a[y]
  }

  /** The entries of a non-empty query are those before its last one, and the last one. */
  lemma EntriesOfSnoc(a: seq<string>)
    requires |a| > 0
    ensures Elems(a) == Elems(a[..|a| - 1]) + {a[|a| - 1]}
  {
    assert a == a[..|a| - 1] + [a[|a| - 1]];
  }

  /** For a query without repetitions, the count is the size of the overlap. */
  lemma {:induction false} FoundDistinct(a: seq<string>, b: set<string>)
    requires Distinct(a)
    ensures Found(a, b) == |(set x | x in a) * b|
  {
    if |a| > 0 {
      var init := a[..|a| - 1];
      var last := a[|a| - 1];
      assert Distinct(init);
      FoundDistinct(init, b);
      EntriesOfSnoc(a);
      assert last !in Elems(init);
      OverlapOfAdded(Elems(init), last, b);
    }
  }

  /** Adding a new element to s grows its overlap with b by one exactly when b holds it. */
  lemma OverlapOfAdded(s: set<string>, e: string, b: set<string>)
    requires e !in s
    ensures |(s + {e}) * b| == |s * b| + (if e in b then 1 else 0)
  {
    if e in b {
      assert (s + {e}) * b == s * b + {e};
    } else {
      assert (s + {e}) * b == s * b;
    }
  }

  /** A query without repetitions has as many distinct entries as entries. */
  lemma {:induction false} DistinctCard(a: seq<string>)
    requires Distinct(a)
    ensures |set x | x in a| == |a|
  {
    if |a| > 0 {
      var init := a[..|a| - 1];
      assert Distinct(init);
      DistinctCard(init);
      EntriesOfSnoc(a);
      assert a[|a| - 1] !in Elems(init);
    }
  }

  /**
    The score of line 142: `1000 * (2f / (|a| + |b| - f))` in integer
    division, f being `Found(a, b)`. The divisor is zero only when both are
    empty, where the source divides by zero; that case is excluded. The
    score is a multiple of 1000, and it is 0 exactly when 3f < |a| + |b|.
  */
  function SimilarityScore(a: seq<string>, b: set<string>): (r: nat)
    requires |a| > 0 || |b| > 0
    ensures r % 1000 == 0
    ensures r == 0 <==> 3 * Found(a, b) < |a| + |b|
  {
    DivisorPositive(a, b);
    var f := Found(a, b);
    var q := (2 * f) / (|a| + |b| - f);
    QuotientZero(2 * f, |a| + |b| - f);
    1000 * q
  }

  /** A quotient is zero exactly when the dividend is below the divisor. */
  lemma QuotientZero(n: nat, d: nat)
    requires d > 0
    ensures n / d == 0 <==> n < d
  {
    if n >= d {
      assert n / d >= 1;
    }
  }

  /** The divisor of line 142 is zero exactly when the query and the set are both empty. */
  lemma DivisorPositive(a: seq<string>, b: set<string>)
    ensures |a| + |b| - Found(a, b) == 0 <==> |a| == 0 && |b| == 0
  {
    if |b| == 0 {
      assert b == {};
      FoundNone(a, b);
    }
  }

  /** A query sharing no entry with the set scores 0. */
  lemma ScoreDisjoint(a: seq<string>, b: set<string>)
    requires |a| > 0 || |b| > 0
    requires forall k :: 0 <= k < |a| ==> a[k] !in b
    ensures SimilarityScore(a, b) == 0
  {
    FoundNone(a, b);
  }

  /** Without repeated query entries the score is at most 2000. */
  lemma ScoreAtMost2000(a: seq<string>, b: set<string>)
    requires |a| > 0 || |b| > 0
    requires Distinct(a)
    ensures SimilarityScore(a, b) <= 2000
  {
    FoundDistinct(a, b);
    var overlap := (set x | x in a) * b;
    assert b == overlap + (b - overlap);
    var f := Found(a, b);
    assert f <= |b|;
    DivisorPositive(a, b);
    QuotientAtMostTwo(2 * f, |a| + |b| - f);
  }

  /** A quotient of at most twice the divisor is at most 2. */
  lemma QuotientAtMostTwo(n: nat, d: nat)
    requires d > 0 && n <= 2 * d
    ensures n / d <= 2
  {
  }

  /**
    A query without repetitions listing exactly the page's categories scores
    2000, where the Jaccard index the comment at line 122 names would be 1.
  */
  lemma ScoreIdentical(a: seq<string>, b: set<string>)
    requires |a| > 0 && Distinct(a) && (set x | x in a) == b
    ensures SimilarityScore(a, b) == 2000
  {
    FoundAll(a, b);
    DistinctCard(a);
    assert Found(a, b) == |a| == |b|;
    assert 2 * |a| / |a| == 2;
  }

  /** Repeating a query entry raises the score past 2000: three copies of x against {x} score 6000. */
  lemma ScoreRepeated(x: string)
    ensures SimilarityScore([x, x, x], {x}) == 6000
  {
    var a := [x, x, x];
    assert a[..2][..1] == [x] && a[..2] == [x, x];
    assert Found([x], {x}) == 1;
    assert Found(a, {x}) == 3;
  }

  /**
    A query of two entries against a page of two categories sharing one of
    them scores 0: 2 / 3 truncates to 0, where the Jaccard index is 1/3.
  */
  lemma ScoreHalfOverlap(x: string, y: string, z: string)
    requires x != y && x != z && y != z
    ensures SimilarityScore([x, y], {x, z}) == 0
  {
    var a := [x, y];
    assert a[..1] == [x];
    assert Found([x], {x, z}) == 1;
    assert Found(a, {x, z}) == 1;
    assert |{x, z}| == 2;
  }

  /** The counting loop of line 131: the size of b. */
  method CountSet(b: set<string>) returns (n: nat)
    ensures n == |b|
  {
    n := 0;
    var rest := b;
    while rest != {}
      invariant rest <= b && n + |rest| == |b|
      decreases |rest|
    {
      var d :| d in rest;
      rest := rest - {d};
      n := n + 1;
    }
  }

  /**
    The search of lines 134-139: walks b until it meets c, and then adds one
    to `found` and stops.
  */
  method CountMatch(c: string, b: set<string>, found: nat) returns (found': nat)
    ensures found' == found + (if c in b then 1 else 0)
  {
    found' := found;
    var todo := b;
    while todo != {}
      invariant todo <= b && c !in b - todo && found' == found
      decreases |todo|
    {
      var d :| d in todo;
      if c == d {
        found' := found' + 1;
        return;
      }
      todo := todo - {d};
    }
  }

  /**
    The loop of lines 132-140: counts the entries of a and how many of them
    occur in b.
  */
  method CountFound(a: seq<string>, b: set<string>) returns (cntA: nat, foundInBoth: nat)
    ensures cntA == |a| && foundInBoth == Found(a, b)
  {
    cntA, foundInBoth := 0, 0;
    for n := 0 to |a|
      invariant cntA == n && foundInBoth == Found(a[..n], b)
    {
      cntA := cntA + 1;
      foundInBoth := CountMatch(a[n], b, foundInBoth);
      assert a[..n + 1][..n] == a[..n];
    }
    assert a[..|a|] == a;
  }

  /**
    `similarity` (lines 123-143): the size of b, the size of a and the
    number of entries of a found in b, combined as on line 142.
  */
  method Similarity(a: seq<string>, b: set<string>) returns (score: nat)
    requires |a| > 0 || |b| > 0
    ensures score == SimilarityScore(a, b)
  {
    var cntB := CountSet(b);
    var cntA, foundInBoth := CountFound(a, b);
    DivisorPositive(a, b);
    var divisor := cntA + cntB - foundInBoth;
    assert divisor == |a| + |b| - Found(a, b);
    score := 1000 * ((2 * foundInBoth) / divisor);
  }

  // ---------------------------------------------------------------------
  // Recommending (lines 89-120)
  // ---------------------------------------------------------------------

  /** Category c lists page p, and p has an entry of its own (lines 97-101). */
  ghost predicate Surfaces(r: Recommender, c: string, p: string)
  {
    c in r.categories && p in r.categories[c] && p in r.pages
  }

  /** One of the first n query entries surfaces page p. */
  ghost predicate SurfacedWithin(r: Recommender, query: seq<string>, n: int, p: string)
  {
    exists k :: 0 <= k < n && k < |query| && Surfaces(r, query[k], p)
  }

  /** Page p is a candidate: some entry of the query surfaces it. */
  ghost predicate IsCandidate(r: Recommender, query: seq<string>, p: string)
  {
    SurfacedWithin(r, query, |query|, p)
  }

  /**
    The gathering loop of lines 90-112: every page of every category of the
    query is scored once; the score is computed each time, as the argument of
    `or_insert` is, but only the first one is stored. Whatever category
    surfaces a page first, its stored score is the same.
  */
  method RankPages(r: Recommender, query: seq<string>) returns (ranked: map<string, nat>)
    ensures forall p :: p in ranked <==> IsCandidate(r, query, p)
    ensures forall p :: p in ranked ==>
      |query| > 0 && p in r.pages && ranked[p] == SimilarityScore(query, r.pages[p])
  {
    ranked := map[];
    for n := 0 to |query|
      invariant forall p :: p in ranked <==> SurfacedWithin(r, query, n, p)
      invariant forall p :: p in ranked ==>
        |query| > 0 && p in r.pages && ranked[p] == SimilarityScore(query, r.pages[p])
    {
      var category := query[n];
      if category in r.categories {
        var members := r.categories[category];
        var todo := members;
        while todo != {}
          invariant todo <= members
          invariant forall p :: p in ranked <==>
            SurfacedWithin(r, query, n, p) || (p in members && p !in todo && p in r.pages)
          invariant forall p :: p in ranked ==>
            |query| > 0 && p in r.pages && ranked[p] == SimilarityScore(query, r.pages[p])
          decreases |todo|
        {
          var page :| page in todo;
          todo := todo - {page};
          if page in r.pages {
            var score := Similarity(query, r.pages[page]);
            if page !in ranked {
              ranked := ranked[page := score];
            }
          }
        }
      }
      forall p
        ensures SurfacedWithin(r, query, n + 1, p) <==> SurfacedWithin(r, query, n, p) || Surfaces(r, category, p)
      {
        if SurfacedWithin(r, query, n + 1, p) && !SurfacedWithin(r, query, n, p) {
          var k :| 0 <= k < n + 1 && k < |query| && Surfaces(r, query[k], p);
          assert k == n;
        }
      }
    }
  }

  /**
    `ranked_pages.keys()` (line 115): the keys of the ranking in ascending
    order, found by taking the least remaining key again and again.
  */
  method AscendingKeys(s: set<string>) returns (ks: seq<string>)
    ensures forall p :: p in ks <==> p in s
    ensures forall x, y :: 0 <= x < y < |ks| ==> LexLess(ks[x], ks[y])
  {
    ks := [];
    var rest := s;
    while rest != {}
      invariant rest <= s
      invariant forall p :: p in ks <==> p in s && p !in rest
      invariant forall x, y :: 0 <= x < y < |ks| ==> LexLess(ks[x], ks[y])
      invariant forall x, p :: 0 <= x < |ks| && p in rest ==> LexLess(ks[x], p)
      decreases |rest|
    {
      LeastExists(rest);
      var least :| IsLeast(least, rest);
      forall x, p | 0 <= x < |ks| && p in rest - {least}
        ensures LexLess(ks[x], p)
      {
        assert LexLess(least, p);
        LexLessTransitive(ks[x], least, p);
      }
      ks := ks + [least];
      rest := rest - {least};
    }
  }

  /**
    `recommend` (lines 89-120): ranks the candidate pages, lists their keys
    in ascending order with their scores alongside, sorts the scores with
    Sbsqsort.Quicksort, which moves the keys along with every swap but the
    straddle swap, and returns the keys. Every candidate page comes out
    exactly once and nothing else does; an empty query, or one naming no
    known category, gives nothing. No order by score is promised, since the
    straddle swap can leave a key beside another page's score.
  */
  method Recommend(r: Recommender, query: seq<string>) returns (result: seq<string>)
    ensures forall p :: multiset(result)[p] == if IsCandidate(r, query, p) then 1 else 0
    ensures (forall k :: 0 <= k < |query| ==> query[k] !in r.categories) ==> result == []
  {
    var ranked := RankPages(r, query);
    var keys := AscendingKeys(ranked.Keys);
    var values := seq(|keys|, x requires 0 <= x < |keys| => ranked[keys[x]]);
    var keyArr := new string[|keys|](x requires 0 <= x < |keys| => keys[x]);
    var valueArr := new int[|values|](x requires 0 <= x < |values| => values[x]);
    assert keyArr[..] == keys;
    Sbsqsort.Quicksort(valueArr, keyArr);
    result := keyArr[..];
    AscendingOnce(keys);
    if forall k :: 0 <= k < |query| ==> query[k] !in r.categories {
      assert forall p :: multiset(result)[p] == 0;
      assert multiset(result) == multiset{};
    }
  }

  /**
    After a sort that keeps every (value, key) pair, each key still sits
    next to its own score.
  */
  lemma PairsKeepScores(vs: seq<int>, ks: seq<string>, vs': seq<int>, ks': seq<string>, ranked: map<string, nat>)
    requires |vs| == |ks| && |vs'| == |ks'|
    requires forall z :: 0 <= z < |ks| ==> ks[z] in ranked && vs[z] == ranked[ks[z]]
    requires multiset(Sbsqsort.Pairs(vs', ks')) == multiset(Sbsqsort.Pairs(vs, ks))
    ensures forall x :: 0 <= x < |ks'| ==> ks'[x] in ranked && vs'[x] == ranked[ks'[x]]
  {
    var before, after := Sbsqsort.Pairs(vs, ks), Sbsqsort.Pairs(vs', ks');
    forall x | 0 <= x < |ks'|
      ensures ks'[x] in ranked && vs'[x] == ranked[ks'[x]]
    {
      assert after[x] in multiset(after);
      assert after[x] in before;
      var z :| 0 <= z < |before| && before[z] == after[x];
      assert vs[z] == vs'[x] && ks[z] == ks'[x];
    }
  }

  /**
    The sorting half of `recommend` with the straddle swap applied to the
    keys too (Sbsqsort.QuicksortPaired): the keys come out permuted and in
    ascending order of their scores.
  */
  method SortByScore(ranked: map<string, nat>, keys: seq<string>) returns (result: seq<string>)
    requires forall x :: 0 <= x < |keys| ==> keys[x] in ranked
    ensures multiset(result) == multiset(keys)
    ensures forall x :: 0 <= x < |result| ==> result[x] in ranked
    ensures forall x, y :: 0 <= x <= y < |result| ==> ranked[result[x]] <= ranked[result[y]]
  {
    var values := seq(|keys|, x requires 0 <= x < |keys| => ranked[keys[x]]);
    var keyArr := new string[|keys|](x requires 0 <= x < |keys| => keys[x]);
    var valueArr := new int[|values|](x requires 0 <= x < |values| => values[x]);
    assert keyArr[..] == keys;
    assert valueArr[..] == values;
    Sbsqsort.QuicksortPaired(valueArr, keyArr);
    result := keyArr[..];
    ghost var sorted := valueArr[..];
    PairsKeepScores(values, keys, sorted, result, ranked);
  }

  /**
    `recommend` with the corrected sort: every candidate comes out exactly
    once, in ascending order of its score.
  */
  method RecommendRanked(r: Recommender, query: seq<string>) returns (result: seq<string>)
    ensures forall p :: multiset(result)[p] == if IsCandidate(r, query, p) then 1 else 0
    ensures |result| > 0 ==> |query| > 0
    ensures forall x, y :: 0 <= x <= y < |result| ==>
      result[x] in r.pages && result[y] in r.pages &&
      SimilarityScore(query, r.pages[result[x]]) <= SimilarityScore(query, r.pages[result[y]])
  {
    var ranked := RankPages(r, query);
    var keys := AscendingKeys(ranked.Keys);
    result := SortByScore(ranked, keys);
    AscendingOnce(keys);
    ScoresAscending(r, query, ranked, result);
  }

  /** Keys listed in ascending order of their ranked scores are listed in ascending order of similarity. */
  lemma ScoresAscending(r: Recommender, query: seq<string>, ranked: map<string, nat>, ks: seq<string>)
    requires forall x :: 0 <= x < |ks| ==> ks[x] in ranked
    requires forall x, y :: 0 <= x <= y < |ks| ==> ranked[ks[x]] <= ranked[ks[y]]
    requires forall p :: p in ranked ==>
      |query| > 0 && p in r.pages && ranked[p] == SimilarityScore(query, r.pages[p])
    ensures |ks| > 0 ==> |query| > 0
    ensures forall x, y :: 0 <= x <= y < |ks| ==>
      ks[x] in r.pages && ks[y] in r.pages &&
      SimilarityScore(query, r.pages[ks[x]]) <= SimilarityScore(query, r.pages[ks[y]])
  {
    if |ks| > 0 {
      assert ks[0] in ranked;
    }
    forall x, y | 0 <= x <= y < |ks|
      ensures ks[x] in r.pages && ks[y] in r.pages &&
        SimilarityScore(query, r.pages[ks[x]]) <= SimilarityScore(query, r.pages[ks[y]])
    {
      assert ranked[ks[x]] <= ranked[ks[y]];
      ScoreOrderPair(r, query, ranked, ks[x], ks[y]);
    }
  }

  /** Two ranked pages compare by similarity as their ranked scores compare. */
  lemma ScoreOrderPair(r: Recommender, query: seq<string>, ranked: map<string, nat>, p1: string, p2: string)
    requires p1 in ranked && p2 in ranked && ranked[p1] <= ranked[p2]
    requires forall p :: p in ranked ==>
      |query| > 0 && p in r.pages && ranked[p] == SimilarityScore(query, r.pages[p])
    ensures |query| > 0 && p1 in r.pages && p2 in r.pages &&
      SimilarityScore(query, r.pages[p1]) <= SimilarityScore(query, r.pages[p2])
  {
  }

  /**
    For a consistent knowledge base (as every loaded one is), the candidates
    of a query are exactly the pages that list one of its entries among
    their categories.
  */
  lemma CandidatesOfConsistent(r: Recommender, query: seq<string>, p: string)
    requires Consistent(r)
    ensures IsCandidate(r, query, p) <==>
      p in r.pages && exists k :: 0 <= k < |query| && query[k] in r.pages[p]
  {
    if p in r.pages && exists k :: 0 <= k < |query| && query[k] in r.pages[p] {
      var k :| 0 <= k < |query| && query[k] in r.pages[p];
      assert Surfaces(r, query[k], p);
    }
  }
}
