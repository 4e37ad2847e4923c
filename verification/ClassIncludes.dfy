/**
 The depth-first include traversal and inheritance of ClassModule
 (src/plugin/core/config/class_module.cc). A parsed XML file is its property declarations and its
 include list; files are a finite map.
 */
module ClassIncludes {

  /** A declared property: its name and type attribute. */
  datatype Property = Property(name: string, kind: string)

  datatype FileDecl = FileDecl(properties: seq<Property>, includes: seq<string>)

  type Files = map<string, FileDecl>

  /** An IClass: its list of included files and its property manager. */
  datatype ClassView = ClassView(list: seq<string>, properties: map<string, string>)

  const EMPTY := ClassView([], map[])

  type Rank = string -> nat

  /** Includes name existing files and never lead back: ranks go down along them. */
  ghost predicate Acyclic(files: Files, rank: Rank) {
    forall f, i :: f in files && 0 <= i < |files[f].includes| ==>
      files[f].includes[i] in files && rank(files[f].includes[i]) < rank(f)
  }

  // ------------------------------------------------------------------------------------------
  // The traversal
  // ------------------------------------------------------------------------------------------

  /** AddProperties: a name that is already declared keeps its first declaration. */
  function Declared(props: map<string, string>, more: seq<Property>): map<string, string>
    decreases |more|
  {
    if more == [] then props
    else
      var p := more[|more| - 1];
      var before := Declared(props, more[..|more| - 1]);
      if p.name in before then before else before[p.name := p.kind]
  }

  /** AddClassInclude and the Add its callers make when it returns true. */
  ghost function Visit(files: Files, rank: Rank, file: string, c: ClassView): ClassView
    requires Acyclic(files, rank) && file in files
    decreases rank(file), 0
  {
    if file in c.list then c
    else
      var d := files[file];
      var all := VisitAll(files, rank, file, |d.includes|, c.(properties := Declared(c.properties, d.properties)));
      all.(list := all.list + [file])
  }

  /** The first `n` includes of `file` visited in turn. */
  ghost function VisitAll(files: Files, rank: Rank, file: string, n: nat, c: ClassView): ClassView
    requires Acyclic(files, rank) && file in files && n <= |files[file].includes|
    decreases rank(file), 0, n
  {
    if n == 0 then c
    else Visit(files, rank, files[file].includes[n - 1], VisitAll(files, rank, file, n - 1, c))
  }

  /** The files reachable from `file` along includes, itself included. */
  ghost function Reach(files: Files, rank: Rank, file: string): set<string>
    requires Acyclic(files, rank) && file in files
    decreases rank(file), 1
  {
    {file} + ReachAll(files, rank, file, |files[file].includes|)
  }

  ghost function ReachAll(files: Files, rank: Rank, file: string, n: nat): set<string>
    requires Acyclic(files, rank) && file in files && n <= |files[file].includes|
    decreases rank(file), 0, n
  {
    if n == 0 then {}
    else ReachAll(files, rank, file, n - 1) + Reach(files, rank, files[file].includes[n - 1])
  }

  predicate AllKnown(files: Files, list: seq<string>) {
    forall i :: 0 <= i < |list| ==> list[i] in files
  }

  predicate NoDuplicates(list: seq<string>) {
    forall i, j :: 0 <= i < j < |list| ==> list[i] != list[j]
  }

  /** Each file of the list comes after all the files it includes. */
  predicate PostOrdered(files: Files, list: seq<string>) {
    forall i :: 0 <= i < |list| ==>
      list[i] in files && forall k :: 0 <= k < |files[list[i]].includes| ==> files[list[i]].includes[k] in list[..i]
  }

  predicate Ordered(files: Files, list: seq<string>) {
    NoDuplicates(list) && PostOrdered(files, list)
  }

  function Elements(list: seq<string>): set<string> {
    set f | f in list
  }

  /** A list that is post-ordered holds everything reachable from what it holds. */
  lemma {:induction false} OrderedIsClosed(files: Files, rank: Rank, list: seq<string>, file: string)
    requires Acyclic(files, rank) && PostOrdered(files, list) && file in list
    ensures file in files && Reach(files, rank, file) <= Elements(list)
    decreases rank(file), 1
  {
    OrderedIsClosedAll(files, rank, list, file, |files[file].includes|);
  }

  lemma {:induction false} OrderedIsClosedAll(files: Files, rank: Rank, list: seq<string>, file: string, n: nat)
    requires Acyclic(files, rank) && PostOrdered(files, list) && file in list && file in files
    requires n <= |files[file].includes|
    ensures ReachAll(files, rank, file, n) <= Elements(list)
    decreases rank(file), 0, n
  {
    if n > 0 {
      OrderedIsClosedAll(files, rank, list, file, n - 1);
      var i :| 0 <= i < |list| && list[i] == file;
      assert files[file].includes[n - 1] in list[..i];
      OrderedIsClosed(files, rank, list, files[file].includes[n - 1]);
    }
  }

  /**
   A visit extends an ordered list to an ordered list whose members are the old ones and everything
   reachable from the file; a file not yet listed becomes the last one.
   */
  lemma {:induction false} VisitOrders(files: Files, rank: Rank, file: string, c: ClassView)
    requires Acyclic(files, rank) && file in files && Ordered(files, c.list)
    ensures var v := Visit(files, rank, file, c);
      && c.list <= v.list && Ordered(files, v.list)
      && Elements(v.list) == Elements(c.list) + Reach(files, rank, file)
      && (file !in c.list ==> v.list != [] && v.list[|v.list| - 1] == file)
    decreases rank(file), 1
  {
    if file in c.list {
      OrderedIsClosed(files, rank, c.list, file);
    } else {
      var d := files[file];
      var start := c.(properties := Declared(c.properties, d.properties));
      VisitAllOrders(files, rank, file, |d.includes|, start);
      var all := VisitAll(files, rank, file, |d.includes|, start);
      NotReachedBelow(files, rank, file, |d.includes|);
      forall k | 0 <= k < |d.includes|
        ensures d.includes[k] in all.list
      {
        IncludesReached(files, rank, file, |d.includes|, k);
        assert d.includes[k] in Elements(all.list);
      }
      assert file !in Elements(all.list);
      AppendOrdered(files, all.list, file);
    }
  }

  lemma AppendOrdered(files: Files, list: seq<string>, file: string)
    requires Ordered(files, list) && file in files && file !in list
    requires forall k :: 0 <= k < |files[file].includes| ==> files[file].includes[k] in list
    ensures Ordered(files, list + [file])
    ensures Elements(list + [file]) == Elements(list) + {file}
  {
    var longer := list + [file];
    assert forall i :: 0 <= i <= |list| ==> longer[..i] == list[..i];
    assert list[..|list|] == list;
  }

  lemma {:induction false} VisitAllOrders(files: Files, rank: Rank, file: string, n: nat, c: ClassView)
    requires Acyclic(files, rank) && file in files && n <= |files[file].includes| && Ordered(files, c.list)
    ensures var v := VisitAll(files, rank, file, n, c);
      && c.list <= v.list && Ordered(files, v.list)
      && Elements(v.list) == Elements(c.list) + ReachAll(files, rank, file, n)
    decreases rank(file), 0, n
  {
    if n > 0 {
      VisitAllOrders(files, rank, file, n - 1, c);
      var before, inc := VisitAll(files, rank, file, n - 1, c), files[file].includes[n - 1];
      VisitOrders(files, rank, inc, before);
      UnionAssociative(Elements(c.list), ReachAll(files, rank, file, n - 1), Reach(files, rank, inc));
    }
  }

  lemma UnionAssociative(a: set<string>, b: set<string>, c: set<string>)
    ensures a + b + c == a + (b + c)
  {
  }

  lemma {:induction false} IncludesReached(files: Files, rank: Rank, file: string, n: nat, k: nat)
    requires Acyclic(files, rank) && file in files && k < n <= |files[file].includes|
    ensures files[file].includes[k] in ReachAll(files, rank, file, n)
    decreases n
  {
    if k < n - 1 {
      IncludesReached(files, rank, file, n - 1, k);
    }
  }

  /** Everything below a file has a smaller rank, so the file is not below itself. */
  lemma {:induction false} NotReachedBelow(files: Files, rank: Rank, file: string, n: nat)
    requires Acyclic(files, rank) && file in files && n <= |files[file].includes|
    ensures forall f :: f in ReachAll(files, rank, file, n) ==> f in files && rank(f) < rank(file)
    ensures file !in ReachAll(files, rank, file, n)
    decreases rank(file), n
  {
    if n > 0 {
      NotReachedBelow(files, rank, file, n - 1);
      var inc := files[file].includes[n - 1];
      NotReachedBelow(files, rank, inc, |files[inc].includes|);
    }
  }

  /** Everything reachable from the first `k` includes of a file. */
  ghost function ReachFirst(files: Files, rank: Rank, file: string, k: nat): set<string>
    requires Acyclic(files, rank) && file in files && k <= |files[file].includes|
  {
    set j, f | 0 <= j < k && f in Reach(files, rank, files[file].includes[j]) :: f
  }

  lemma {:induction false} ReachAllIsFirst(files: Files, rank: Rank, file: string, k: nat)
    requires Acyclic(files, rank) && file in files && k <= |files[file].includes|
    ensures ReachAll(files, rank, file, k) == ReachFirst(files, rank, file, k)
    decreases k
  {
    if k > 0 {
      ReachAllIsFirst(files, rank, file, k - 1);
      var last := Reach(files, rank, files[file].includes[k - 1]);
      assert ReachFirst(files, rank, file, k) == ReachFirst(files, rank, file, k - 1) + last;
    }
  }

  lemma {:induction false} VisitAllExtends(files: Files, rank: Rank, file: string, k: nat, n: nat, c: ClassView)
    requires Acyclic(files, rank) && file in files && k <= n <= |files[file].includes| && Ordered(files, c.list)
    ensures VisitAll(files, rank, file, k, c).list <= VisitAll(files, rank, file, n, c).list
    decreases n
  {
    if k < n {
      VisitAllExtends(files, rank, file, k, n - 1, c);
      VisitAllOrders(files, rank, file, n - 1, c);
      VisitOrders(files, rank, files[file].includes[n - 1], VisitAll(files, rank, file, n - 1, c));
    }
  }

  /** Includes are read in the order they are written: what the first `k` lead to is listed before the rest. */
  lemma VisitReadsInOrder(files: Files, rank: Rank, file: string, c: ClassView, k: nat) returns (m: nat)
    requires Acyclic(files, rank) && file in files && Ordered(files, c.list) && file !in c.list
    requires k <= |files[file].includes|
    ensures var v := Visit(files, rank, file, c);
      m <= |v.list| && Elements(v.list[..m]) == Elements(c.list) + ReachFirst(files, rank, file, k)
  {
    var d := files[file];
    var start := c.(properties := Declared(c.properties, d.properties));
    var some, all := VisitAll(files, rank, file, k, start), VisitAll(files, rank, file, |d.includes|, start);
    VisitAllOrders(files, rank, file, k, start);
    VisitAllExtends(files, rank, file, k, |d.includes|, start);
    ReachAllIsFirst(files, rank, file, k);
    m := |some.list|;
    assert (all.list + [file])[..m] == some.list;
  }

  // ------------------------------------------------------------------------------------------
  // Properties
  // ------------------------------------------------------------------------------------------

  function Names(props: seq<Property>): set<string> {
    set p | p in props :: p.name
  }

  /** Everything the files of a list declare. */
  ghost function AllNames(files: Files, list: seq<string>): set<string>
    requires AllKnown(files, list)
  {
    set f, p | f in list && p in files[f].properties :: p.name
  }

  lemma {:induction false} DeclaredKeys(props: map<string, string>, more: seq<Property>)
    ensures Declared(props, more).Keys == props.Keys + Names(more)
    decreases |more|
  {
    if more != [] {
      var last := |more| - 1;
      DeclaredKeys(props, more[..last]);
      assert more == more[..last] + [more[last]];
      assert Names(more) == Names(more[..last]) + {more[last].name};
    }
  }

  lemma AllNamesGrows(files: Files, list: seq<string>, file: string)
    requires file in files && AllKnown(files, list)
    ensures AllNames(files, list + [file]) == AllNames(files, list) + Names(files[file].properties)
  {
    assert forall f :: f in list + [file] <==> f in list || f == file;
  }

  /** The keys are those of the files listed and `extra` more. */
  ghost predicate Declares(files: Files, c: ClassView, extra: set<string>) {
    AllKnown(files, c.list) && c.properties.Keys == AllNames(files, c.list) + extra
  }

  lemma DeclaresMore(files: Files, c: ClassView, extra: set<string>, more: seq<Property>)
    requires Declares(files, c, extra)
    ensures Declares(files, c.(properties := Declared(c.properties, more)), extra + Names(more))
  {
    DeclaredKeys(c.properties, more);
    UnionAssociative(AllNames(files, c.list), extra, Names(more));
  }

  lemma DeclaresListed(files: Files, c: ClassView, extra: set<string>, file: string)
    requires file in files && Declares(files, c, extra + Names(files[file].properties))
    ensures Declares(files, c.(list := c.list + [file]), extra)
  {
    AllNamesGrows(files, c.list, file);
    UnionSwap(AllNames(files, c.list), extra, Names(files[file].properties));
  }

  lemma UnionSwap(a: set<string>, b: set<string>, c: set<string>)
    ensures a + (b + c) == (a + c) + b
  {
  }

  /** A visit declares the names of the files it adds, besides those of the class before. */
  lemma {:induction false} VisitDeclares(files: Files, rank: Rank, file: string, c: ClassView, extra: set<string>)
    requires Acyclic(files, rank) && file in files && Declares(files, c, extra)
    ensures Declares(files, Visit(files, rank, file, c), extra)
    decreases rank(file), 1
  {
    if file !in c.list {
      var d := files[file];
      var start := c.(properties := Declared(c.properties, d.properties));
      DeclaresMore(files, c, extra, d.properties);
      VisitAllDeclares(files, rank, file, |d.includes|, start, extra + Names(d.properties));
      DeclaresListed(files, VisitAll(files, rank, file, |d.includes|, start), extra, file);
    }
  }

  lemma {:induction false} VisitAllDeclares(
      files: Files, rank: Rank, file: string, n: nat, c: ClassView, extra: set<string>)
    requires Acyclic(files, rank) && file in files && n <= |files[file].includes| && Declares(files, c, extra)
    ensures Declares(files, VisitAll(files, rank, file, n, c), extra)
    decreases rank(file), 0, n
  {
    if n > 0 {
      VisitAllDeclares(files, rank, file, n - 1, c, extra);
      VisitDeclares(files, rank, files[file].includes[n - 1], VisitAll(files, rank, file, n - 1, c), extra);
    }
  }

  // ------------------------------------------------------------------------------------------
  // Inheritance
  // ------------------------------------------------------------------------------------------

  /**
   The inner loop of AddClass over an ancestor's list from position `i`: it ends early at a file the
   class already lists, and at an empty file name.
   */
  ghost function InheritFrom(files: Files, rank: Rank, list: seq<string>, i: nat, c: ClassView): ClassView
    requires Acyclic(files, rank) && i <= |list| && AllKnown(files, list)
    decreases |list| - i
  {
    if i == |list| || list[i] == "" || list[i] in c.list then c
    else InheritFrom(files, rank, list, i + 1, Visit(files, rank, list[i], c))
  }

  /** The outer loop of AddClass over the ancestors, nearest first. */
  ghost function InheritAll(files: Files, rank: Rank, ancestors: seq<seq<string>>, c: ClassView): ClassView
    requires Acyclic(files, rank)
    requires forall i :: 0 <= i < |ancestors| ==> AllKnown(files, ancestors[i])
    decreases |ancestors|
  {
    if ancestors == [] then c
    else InheritAll(files, rank, ancestors[1..], InheritFrom(files, rank, ancestors[0], 0, c))
  }

  /** AddClass on a new class. */
  ghost function AddClass(files: Files, rank: Rank, ancestors: seq<seq<string>>, path: string): ClassView
    requires Acyclic(files, rank) && path in files
    requires forall i :: 0 <= i < |ancestors| ==> AllKnown(files, ancestors[i])
  {
    Visit(files, rank, path, InheritAll(files, rank, ancestors, EMPTY))
  }

  /** Visiting a file whose includes are all listed adds that file alone. */
  lemma {:induction false} VisitAllListed(files: Files, rank: Rank, file: string, n: nat, c: ClassView)
    requires Acyclic(files, rank) && file in files && n <= |files[file].includes|
    requires forall k :: 0 <= k < n ==> files[file].includes[k] in c.list
    ensures VisitAll(files, rank, file, n, c) == c
    decreases n
  {
    if n > 0 {
      VisitAllListed(files, rank, file, n - 1, c);
    }
  }

  /** From a prefix of an ordered list the inner loop copies the rest of it, file by file. */
  lemma {:induction false} InheritCopies(files: Files, rank: Rank, list: seq<string>, i: nat, c: ClassView)
    requires Acyclic(files, rank) && "" !in files && Ordered(files, list)
    requires i <= |list| && c.list == list[..i] && c.properties.Keys == AllNames(files, c.list)
    ensures var v := InheritFrom(files, rank, list, i, c);
      v.list == list && v.properties.Keys == AllNames(files, list)
    decreases |list| - i
  {
    if i < |list| {
      var file := list[i];
      var d := files[file];
      var start := c.(properties := Declared(c.properties, d.properties));
      VisitAllListed(files, rank, file, |d.includes|, start);
      DeclaredKeys(c.properties, d.properties);
      AllNamesGrows(files, c.list, file);
      assert list[..i + 1] == list[..i] + [file];
      InheritCopies(files, rank, list, i + 1, Visit(files, rank, file, c));
    } else {
      assert list[..i] == list;
    }
  }

  /** Ancestor lists as AddClass leaves them: ordered, each a prefix of the nearer ones. */
  ghost predicate Nested(files: Files, ancestors: seq<seq<string>>) {
    && (forall i :: 0 <= i < |ancestors| ==> Ordered(files, ancestors[i]))
    && (forall i, j :: 0 <= i <= j < |ancestors| ==> ancestors[j] <= ancestors[i])
  }

  /** Once the nearest ancestor is copied, every farther one ends the inner loop at its first file. */
  lemma {:induction false} FartherAddsNothing(files: Files, rank: Rank, ancestors: seq<seq<string>>, c: ClassView)
    requires Acyclic(files, rank)
    requires forall i :: 0 <= i < |ancestors| ==> AllKnown(files, ancestors[i])
    requires forall i :: 0 <= i < |ancestors| ==> ancestors[i] <= c.list
    ensures InheritAll(files, rank, ancestors, c) == c
    decreases |ancestors|
  {
    if ancestors != [] {
      assert ancestors[0] != [] ==> ancestors[0][0] in c.list;
      FartherAddsNothing(files, rank, ancestors[1..], c);
    }
  }

  /**
   A class's file list is its parent's list followed by the newly reachable files: no duplicates,
   each file after the files it includes, nothing missing and nothing else; and its property names
   are exactly those of its files, so it declares every property name of its parent. In particular
   the early exit of the inheritance loop skips no inherited file.
   */
  lemma AddClassExtendsParent(files: Files, rank: Rank, ancestors: seq<seq<string>>, path: string)
    requires Acyclic(files, rank) && "" !in files && path in files && Nested(files, ancestors)
    ensures var parent := if ancestors == [] then [] else ancestors[0];
      var c := AddClass(files, rank, ancestors, path);
      && parent <= c.list && Ordered(files, c.list)
      && Elements(c.list) == Elements(parent) + Reach(files, rank, path)
      && c.properties.Keys == AllNames(files, c.list)
      && AllNames(files, parent) <= c.properties.Keys
  {
    InheritedIsParent(files, rank, ancestors);
    ExtendsInherited(files, rank, InheritAll(files, rank, ancestors, EMPTY), path);
  }

  /** What visiting its own file adds to what a class has inherited. */
  lemma ExtendsInherited(files: Files, rank: Rank, inherited: ClassView, path: string)
    requires Acyclic(files, rank) && path in files && Ordered(files, inherited.list)
    requires inherited.properties.Keys == AllNames(files, inherited.list)
    ensures var c := Visit(files, rank, path, inherited);
      && inherited.list <= c.list && Ordered(files, c.list)
      && Elements(c.list) == Elements(inherited.list) + Reach(files, rank, path)
      && c.properties.Keys == AllNames(files, c.list)
      && AllNames(files, inherited.list) <= c.properties.Keys
  {
    var c := Visit(files, rank, path, inherited);
    VisitOrders(files, rank, path, inherited);
    assert c.properties.Keys == AllNames(files, c.list) by {
      VisitDeclares(files, rank, path, inherited, {});
    }
    SameNames(files, inherited.list, c.list);
  }

  /** The new class's list can in turn be inherited. */
  lemma AddClassKeepsNesting(files: Files, rank: Rank, ancestors: seq<seq<string>>, path: string)
    requires Acyclic(files, rank) && "" !in files && path in files && Nested(files, ancestors)
    ensures Nested(files, [AddClass(files, rank, ancestors, path).list] + ancestors)
  {
    AddClassExtendsParent(files, rank, ancestors, path);
    NestedGrows(files, AddClass(files, rank, ancestors, path).list, ancestors);
  }

  lemma InheritedIsParent(files: Files, rank: Rank, ancestors: seq<seq<string>>)
    requires Acyclic(files, rank) && "" !in files && Nested(files, ancestors)
    ensures var inherited := InheritAll(files, rank, ancestors, EMPTY);
      && inherited.list == (if ancestors == [] then [] else ancestors[0])
      && Ordered(files, inherited.list)
      && inherited.properties.Keys == AllNames(files, inherited.list)
  {
    assert AllNames(files, []) == {};
    if ancestors != [] {
      InheritCopies(files, rank, ancestors[0], 0, EMPTY);
      FartherAddsNothing(files, rank, ancestors[1..], InheritFrom(files, rank, ancestors[0], 0, EMPTY));
    }
  }

  lemma SameNames(files: Files, some: seq<string>, all: seq<string>)
    requires AllKnown(files, all) && some <= all
    ensures AllNames(files, some) <= AllNames(files, all)
  {
    assert forall f :: f in some ==> f in all;
  }

  lemma NestedGrows(files: Files, list: seq<string>, ancestors: seq<seq<string>>)
    requires Nested(files, ancestors) && Ordered(files, list) && (ancestors != [] ==> ancestors[0] <= list)
    ensures Nested(files, [list] + ancestors)
  {
    var longer := [list] + ancestors;
    forall i, j | 0 <= i <= j < |longer|
      ensures longer[j] <= longer[i]
    {
      if i == 0 < j {
        assert ancestors[j - 1] <= ancestors[0];
      }
    }
  }

  // ------------------------------------------------------------------------------------------
  // Whole lines of descent
  // ------------------------------------------------------------------------------------------

  predicate Known(files: Files, paths: seq<string>) {
    forall i :: 0 <= i < |paths| ==> paths[i] in files
  }

  /** The file lists of the classes along a line of descent, the youngest first, each built by AddClass. */
  ghost function Lists(files: Files, rank: Rank, paths: seq<string>): (lists: seq<seq<string>>)
    requires Acyclic(files, rank) && "" !in files && Known(files, paths)
    ensures |lists| == |paths| && Nested(files, lists)
    decreases |paths|
  {
    if paths == [] then []
    else
      var older := Lists(files, rank, paths[1..]);
      AddClassKeepsNesting(files, rank, older, paths[0]);
      [AddClass(files, rank, older, paths[0]).list] + older
  }

  /** The class with own file `paths[0]` below classes with the other files, the nearest first. */
  ghost function ClassOf(files: Files, rank: Rank, paths: seq<string>): ClassView
    requires Acyclic(files, rank) && "" !in files && Known(files, paths) && paths != []
  {
    AddClass(files, rank, Lists(files, rank, paths[1..]), paths[0])
  }

  ghost function ReachOf(files: Files, rank: Rank, paths: seq<string>): set<string>
    requires Acyclic(files, rank) && Known(files, paths)
  {
    if paths == [] then {} else ReachOf(files, rank, paths[1..]) + Reach(files, rank, paths[0])
  }

  /** What a class of a line of descent is: exactly the files reachable from the line, well ordered. */
  lemma {:induction false} ClassIsReachable(files: Files, rank: Rank, paths: seq<string>)
    requires Acyclic(files, rank) && "" !in files && Known(files, paths) && paths != []
    ensures var c := ClassOf(files, rank, paths);
      && Ordered(files, c.list)
      && Elements(c.list) == ReachOf(files, rank, paths)
      && c.properties.Keys == AllNames(files, c.list)
    decreases |paths|
  {
    AddClassExtendsParent(files, rank, Lists(files, rank, paths[1..]), paths[0]);
    if |paths| > 1 {
      ClassIsReachable(files, rank, paths[1..]);
    }
  }

  /** A class holds its parent's file list as a prefix and declares every name its parent declares. */
  lemma ChildHoldsParent(files: Files, rank: Rank, paths: seq<string>)
    requires Acyclic(files, rank) && "" !in files && Known(files, paths) && |paths| >= 2
    ensures var child, parent := ClassOf(files, rank, paths), ClassOf(files, rank, paths[1..]);
      parent.list <= child.list && parent.properties.Keys <= child.properties.Keys
  {
    AddClassExtendsParent(files, rank, Lists(files, rank, paths[1..]), paths[0]);
    ClassIsReachable(files, rank, paths[1..]);
    assert Lists(files, rank, paths[1..])[0] == ClassOf(files, rank, paths[1..]).list;
  }

  /** And so for every ancestor. */
  lemma {:induction false} DescendantHoldsAncestor(files: Files, rank: Rank, paths: seq<string>, j: nat)
    requires Acyclic(files, rank) && "" !in files && Known(files, paths) && j < |paths|
    ensures var child, ancestor := ClassOf(files, rank, paths), ClassOf(files, rank, paths[j..]);
      && ancestor.list <= child.list
      && ancestor.properties.Keys <= child.properties.Keys
    decreases j
  {
    if j > 0 {
      ChildHoldsParent(files, rank, paths);
      DescendantHoldsAncestor(files, rank, paths[1..], j - 1);
      assert paths[1..][j - 1..] == paths[j..];
    } else {
      assert paths[0..] == paths;
    }
  }

  // ------------------------------------------------------------------------------------------
  // Property types
  // ------------------------------------------------------------------------------------------

  /** The files of a list declared one after the other. */
  ghost function ListDeclared(files: Files, list: seq<string>): map<string, string>
    requires AllKnown(files, list)
    decreases |list|
  {
    if list == [] then map[]
    else Declared(ListDeclared(files, list[..|list| - 1]), files[list[|list| - 1]].properties)
  }

  ghost predicate Extends(small: map<string, string>, big: map<string, string>) {
    forall n :: n in small ==> n in big && big[n] == small[n]
  }

  lemma {:induction false} DeclaredKeeps(props: map<string, string>, more: seq<Property>)
    ensures Extends(props, Declared(props, more))
    decreases |more|
  {
    if more != [] {
      DeclaredKeeps(props, more[..|more| - 1]);
    }
  }

  /** No visit changes the type of a declared property. */
  lemma {:induction false} VisitKeeps(files: Files, rank: Rank, file: string, c: ClassView)
    requires Acyclic(files, rank) && file in files
    ensures Extends(c.properties, Visit(files, rank, file, c).properties)
    decreases rank(file), 1
  {
    if file !in c.list {
      var d := files[file];
      DeclaredKeeps(c.properties, d.properties);
      VisitAllKeeps(files, rank, file, |d.includes|, c.(properties := Declared(c.properties, d.properties)));
    }
  }

  lemma {:induction false} VisitAllKeeps(files: Files, rank: Rank, file: string, n: nat, c: ClassView)
    requires Acyclic(files, rank) && file in files && n <= |files[file].includes|
    ensures Extends(c.properties, VisitAll(files, rank, file, n, c).properties)
    decreases rank(file), 0, n
  {
    if n > 0 {
      VisitAllKeeps(files, rank, file, n - 1, c);
      VisitKeeps(files, rank, files[file].includes[n - 1], VisitAll(files, rank, file, n - 1, c));
    }
  }

  /** The inner loop declares an ancestor's files in list order, whatever order the ancestor used. */
  lemma {:induction false} InheritDeclaresInOrder(files: Files, rank: Rank, list: seq<string>, i: nat, c: ClassView)
    requires Acyclic(files, rank) && "" !in files && Ordered(files, list)
    requires i <= |list| && c == ClassView(list[..i], ListDeclared(files, list[..i]))
    ensures InheritFrom(files, rank, list, i, c) == ClassView(list, ListDeclared(files, list))
    decreases |list| - i
  {
    if i < |list| {
      VisitNext(files, rank, list, i, c);
      InheritDeclaresInOrder(files, rank, list, i + 1, Visit(files, rank, list[i], c));
    } else {
      assert list[..i] == list;
    }
  }

  /** Visiting the next file of an ordered list, with the ones before it already listed. */
  lemma VisitNext(files: Files, rank: Rank, list: seq<string>, i: nat, c: ClassView)
    requires Acyclic(files, rank) && Ordered(files, list)
    requires i < |list| && c == ClassView(list[..i], ListDeclared(files, list[..i]))
    ensures list[i] !in c.list
    ensures Visit(files, rank, list[i], c) == ClassView(list[..i + 1], ListDeclared(files, list[..i + 1]))
  {
    var file := list[i];
    var d := files[file];
    VisitAllListed(files, rank, file, |d.includes|, c.(properties := Declared(c.properties, d.properties)));
    assert list[..i + 1] == list[..i] + [file];
    assert list[..i + 1][..i] == list[..i];
  }

  /**
   A class gives every inherited name its parent's type if and only if declaring the parent's files in
   list order, includes first, gives the types the parent has.
   */
  lemma TypesInheritedIff(files: Files, rank: Rank, paths: seq<string>)
    requires Acyclic(files, rank) && "" !in files && Known(files, paths) && |paths| >= 2
    ensures var child, parent := ClassOf(files, rank, paths), ClassOf(files, rank, paths[1..]);
      Extends(parent.properties, child.properties) <==> parent.properties == ListDeclared(files, parent.list)
  {
    var child, parent := ClassOf(files, rank, paths), ClassOf(files, rank, paths[1..]);
    var older := Lists(files, rank, paths[1..]);
    assert older[0] == parent.list;
    var inherited := InheritFrom(files, rank, older[0], 0, EMPTY);
    InheritDeclaresInOrder(files, rank, older[0], 0, EMPTY);
    FartherAddsNothing(files, rank, older[1..], inherited);
    InheritedIsParent(files, rank, older);
    ClassIsReachable(files, rank, paths[1..]);
    VisitKeeps(files, rank, paths[0], inherited);
    assert child == Visit(files, rank, paths[0], inherited);
    SameExtension(parent.properties, inherited.properties, child.properties);
  }

  /** Two parts of one map with the same keys are the same. */
  lemma SameExtension(a: map<string, string>, b: map<string, string>, all: map<string, string>)
    requires a.Keys == b.Keys && Extends(b, all)
    ensures Extends(a, all) <==> a == b
  {
    if Extends(a, all) {
      assert forall n :: n in a ==> n in b && a[n] == b[n];
    }
  }

  /** A file that redeclares, with another type, a name of a file it includes. */
  function Redeclaring(): (files: Files)
  {
    map[
      "base" := FileDecl([Property("level", "string")], []),
      "parent" := FileDecl([Property("level", "int")], ["base"]),
      "child" := FileDecl([], [])]
  }

  function Height(file: string): nat {
    if file == "parent" then 1 else 0
  }

  /** The parent reads its own declaration before its include's; the child re-reads them the other way round. */
  lemma TypeCanChange()
    ensures Acyclic(Redeclaring(), Height)
    ensures ClassOf(Redeclaring(), Height, ["parent"]).properties == map["level" := "int"]
    ensures ClassOf(Redeclaring(), Height, ["child", "parent"]).properties == map["level" := "string"]
  {
    var files := Redeclaring();
    RedeclaringDeclared();
    ParentAlone();
    var list := ["base", "parent"];
    var older := Lists(files, Height, ["parent"]);
    assert ["child", "parent"][1..] == ["parent"] && ["parent"][1..] == [] && older == [list];
    assert list[..1] == ["base"] && ["base"][..0] == [] && ListDeclared(files, ["base"]) == map["level" := "string"];
    InheritDeclaresInOrder(files, Height, list, 0, EMPTY);
    var inherited := ClassView(list, map["level" := "string"]);
    assert InheritFrom(files, Height, list, 0, EMPTY) == inherited;
    assert [list][1..] == [];
    assert InheritAll(files, Height, [list], EMPTY) == inherited;
    assert VisitAll(files, Height, "child", 0, inherited) == inherited;
  }

  function WithLevel(props: map<string, string>, kind: string): map<string, string> {
    if "level" in props then props else props["level" := kind]
  }

  lemma RedeclaringDeclared()
    ensures forall props :: Declared(props, []) == props
    ensures forall props :: Declared(props, Redeclaring()["base"].properties) == WithLevel(props, "string")
    ensures forall props :: Declared(props, Redeclaring()["parent"].properties) == WithLevel(props, "int")
  {
    var base, parent := Redeclaring()["base"].properties, Redeclaring()["parent"].properties;
    assert base[..0] == [] && parent[..0] == [];
  }

  lemma ParentAlone()
    ensures ClassOf(Redeclaring(), Height, ["parent"]) == ClassView(["base", "parent"], map["level" := "int"])
  {
    var files := Redeclaring();
    RedeclaringDeclared();
    var start := ClassView([], map["level" := "int"]);
    assert VisitAll(files, Height, "base", 0, start) == start;
    assert VisitAll(files, Height, "parent", 0, start) == start;
    assert Visit(files, Height, "base", start) == start.(list := ["base"]);
    assert VisitAll(files, Height, "parent", 1, start) == start.(list := ["base"]);
    assert Visit(files, Height, "parent", EMPTY) == start.(list := ["base", "parent"]);
    assert ["parent"][1..] == [];
  }

  /** All files that declare a name give it the type `kinds` gives it. */
  ghost predicate Consistent(files: Files, kinds: map<string, string>) {
    forall f, i :: f in files && 0 <= i < |files[f].properties| ==>
      var p := files[f].properties[i];
      p.name in kinds && kinds[p.name] == p.kind
  }

  lemma {:induction false} DeclaredConsistent(props: map<string, string>, more: seq<Property>, kinds: map<string, string>)
    requires Extends(props, kinds)
    requires forall i :: 0 <= i < |more| ==> more[i].name in kinds && kinds[more[i].name] == more[i].kind
    ensures Extends(Declared(props, more), kinds)
    decreases |more|
  {
    if more != [] {
      DeclaredConsistent(props, more[..|more| - 1], kinds);
    }
  }

  lemma {:induction false} ListConsistent(files: Files, list: seq<string>, kinds: map<string, string>)
    requires Consistent(files, kinds) && AllKnown(files, list)
    ensures Extends(ListDeclared(files, list), kinds)
    decreases |list|
  {
    if list != [] {
      var last := |list| - 1;
      ListConsistent(files, list[..last], kinds);
      DeclaredConsistent(ListDeclared(files, list[..last]), files[list[last]].properties, kinds);
    }
  }

  lemma {:induction false} VisitConsistent(
      files: Files, rank: Rank, file: string, c: ClassView, kinds: map<string, string>)
    requires Acyclic(files, rank) && Consistent(files, kinds) && file in files && Extends(c.properties, kinds)
    ensures Extends(Visit(files, rank, file, c).properties, kinds)
    decreases rank(file), 1
  {
    if file !in c.list {
      var d := files[file];
      DeclaredConsistent(c.properties, d.properties, kinds);
      var start := c.(properties := Declared(c.properties, d.properties));
      VisitAllConsistent(files, rank, file, |d.includes|, start, kinds);
    }
  }

  lemma {:induction false} VisitAllConsistent(
      files: Files, rank: Rank, file: string, n: nat, c: ClassView, kinds: map<string, string>)
    requires Acyclic(files, rank) && Consistent(files, kinds) && Extends(c.properties, kinds)
    requires file in files && n <= |files[file].includes|
    ensures Extends(VisitAll(files, rank, file, n, c).properties, kinds)
    decreases rank(file), 0, n
  {
    if n > 0 {
      VisitAllConsistent(files, rank, file, n - 1, c, kinds);
      VisitConsistent(files, rank, files[file].includes[n - 1], VisitAll(files, rank, file, n - 1, c), kinds);
    }
  }

  /** When no two files disagree on a name's type, every class passes its types on. */
  lemma ConsistentTypesInherited(files: Files, rank: Rank, paths: seq<string>, kinds: map<string, string>)
    requires Acyclic(files, rank) && "" !in files && Known(files, paths) && |paths| >= 2
    requires Consistent(files, kinds)
    ensures Extends(ClassOf(files, rank, paths[1..]).properties, ClassOf(files, rank, paths).properties)
  {
    var older := Lists(files, rank, paths[2..]);
    var parent := ClassOf(files, rank, paths[1..]);
    assert paths[1..][1..] == paths[2..];
    InheritedIsParent(files, rank, older);
    var inherited := InheritAll(files, rank, older, EMPTY);
    if older != [] {
      InheritDeclaresInOrder(files, rank, older[0], 0, EMPTY);
      FartherAddsNothing(files, rank, older[1..], InheritFrom(files, rank, older[0], 0, EMPTY));
      ListConsistent(files, older[0], kinds);
    }
    VisitConsistent(files, rank, paths[1], inherited, kinds);
    ClassIsReachable(files, rank, paths[1..]);
    ListConsistent(files, parent.list, kinds);
    ListNames(files, parent.list);
    SameExtension(parent.properties, ListDeclared(files, parent.list), kinds);
    TypesInheritedIff(files, rank, paths);
  }

  lemma {:induction false} ListNames(files: Files, list: seq<string>)
    requires AllKnown(files, list)
    ensures ListDeclared(files, list).Keys == AllNames(files, list)
    decreases |list|
  {
    if list != [] {
      var last := |list| - 1;
      ListNames(files, list[..last]);
      DeclaredKeys(ListDeclared(files, list[..last]), files[list[last]].properties);
      AllNamesGrows(files, list[..last], list[last]);
      assert list == list[..last] + [list[last]];
    }
  }
}
