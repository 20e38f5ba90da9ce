/**
 * The syntax-tree bundler (`Bundler1` in `src/cmd/bundle_problem.rs`). The
 * binary phase walks the solution's syntax tree and records every module
 * path imported from the library. The library phase loads `src/lib.rs`, drops
 * bookkeeping attributes, replaces every `mod m;` by the items of the file it
 * names (recursively), and wraps the whole library in one module named after
 * the library.
 *
 * Parsed files are syntax trees kept by path in a map, the library's source
 * directory is `src`, and the items other than modules and imports are opaque.
 */
module TreeBundler {
  import opened Wrappers

  // ---------------------------------------------------------------------
  // Syntax trees

  /** `syn::UseTree`. */
  datatype UseTree =
    | UsePath(ident: string, tree: UseTree)
    | UseName(ident: string)
    | UseRename(ident: string, alias: string)
    | UseGlob
    | UseGroup(items: seq<UseTree>)

  /** An outer or inner attribute: its path segments and the rest of its tokens. */
  datatype Attr = Attr(path: seq<string>, tokens: string)

  /** An item: a module with its items, a `mod m;` declaration, an import, or anything else. */
  datatype Item =
    | ModItem(attrs: seq<Attr>, name: string, content: seq<Item>)
    | ModDecl(attrs: seq<Attr>, name: string)
    | UseItem(attrs: seq<Attr>, tree: UseTree)
    | OtherItem(attrs: seq<Attr>, text: string)

  /** `syn::File`: the file's inner attributes and its items. */
  datatype SourceFile = SourceFile(attrs: seq<Attr>, items: seq<Item>)

  /**
   * Which of the bundler's two questionable choices are taken: `AsWritten`
   * is the code of `bundle_problem.rs` (the skip test of `visit_item_use`,
   * and submodules of `name.rs` looked for beside it), `Intended` what that
   * code means (skip every import not rooted at the library, submodules of
   * `name.rs` looked for in `name/`).
   */
  datatype Reading = AsWritten | Intended

  // ---------------------------------------------------------------------
  // Binary phase: the modules a solution imports

  /** The path segments above the leaf of an import, `main` dropped wherever it appears. */
  function Segments(main: string, t: UseTree): seq<string> {
    match t
    case UsePath(id, sub) => (if id == main then [] else [id]) + Segments(main, sub)
    case _ => []
  }

  /** Every path segment above the leaf, in order. */
  function Chain(t: UseTree): seq<string> {
    match t
    case UsePath(id, sub) => [id] + Chain(sub)
    case _ => []
  }

  /** What follows the path segments: a name, a rename, a glob or a group. */
  function Leaf(t: UseTree): (r: UseTree)
    ensures !r.UsePath?
  {
    match t
    case UsePath(_, sub) => Leaf(sub)
    case _ => t
  }

  /** The segments kept are exactly the path segments other than `main`. */
  lemma {:induction false} SegmentsSkipMain(main: string, t: UseTree)
    ensures forall x :: x in Segments(main, t) <==> x in Chain(t) && x != main
  {
    match t
    case UsePath(id, sub) =>
      SegmentsSkipMain(main, sub);
    case _ =>
  }

  /** A group member `process_item_use` accepts: a plain or renamed name. */
  predicate IsNamed(t: UseTree) {
    t.UseName? || t.UseRename?
  }

  /** The name recorded for a group member: the original name, never the alias. */
  function NameOf(t: UseTree): string {
    match t
    case UseName(id) => id
    case UseRename(id, _) => id
    case _ => ""
  }

  /**
   * The module paths `process_item_use` records for an import: the segments
   * and then the name (the original one for a rename), one path per member of
   * a group, or the segments alone for a glob. A group member that is not a
   * plain or renamed name is an error.
   */
  function UsedPaths(main: string, t: UseTree): (r: Result<set<seq<string>>, string>)
    ensures !Leaf(t).UseGroup? ==> r.Ok? && |r.value| == 1
    ensures r.Ok? ==> forall p :: p in r.value ==> Segments(main, t) <= p && |p| <= |Segments(main, t)| + 1
  {
    var seg := Segments(main, t);
    match Leaf(t)
    case UseName(id) => Ok({seg + [id]})
    case UseRename(id, _) => Ok({seg + [id]})
    case UseGlob => Ok({seg})
    case UseGroup(items) => GroupPaths(seg, items)
  }

  /** One path per member of a group, each member a plain or renamed name. */
  function GroupPaths(seg: seq<string>, items: seq<UseTree>): (r: Result<set<seq<string>>, string>)
    ensures r.Ok? ==> forall p :: p in r.value ==> seg <= p && |p| == |seg| + 1
  {
    if forall i :: 0 <= i < |items| ==> IsNamed(items[i]) then
      Ok(set i | 0 <= i < |items| :: seg + [NameOf(items[i])])
    else Err("Unexpected UseTree item")
  }

  /**
   * A renamed import records the name it renames, never its alias; paths
   * never hold `main` above their last segment.
   */
  lemma UsedPathsShape(main: string, t: UseTree)
    requires UsedPaths(main, t).Ok?
    ensures forall p :: p in UsedPaths(main, t).value ==>
      p[..|Segments(main, t)|] == Segments(main, t) && main !in Segments(main, t)
    ensures Leaf(t).UseRename? ==> UsedPaths(main, t).value == {Segments(main, t) + [Leaf(t).ident]}
  {
    SegmentsSkipMain(main, t);
    var seg := Segments(main, t);
    forall p | p in UsedPaths(main, t).value
      ensures p[..|seg|] == seg
    {
      if Leaf(t).UseGroup? {
        var i :| 0 <= i < |Leaf(t).items| && p == seg + [NameOf(Leaf(t).items[i])];
      }
    }
  }

  /** A group fails exactly when one of its members is neither a name nor a rename. */
  lemma GroupFailsOnNested(main: string, t: UseTree)
    requires Leaf(t).UseGroup?
    ensures UsedPaths(main, t).Err? <==> exists i :: 0 <= i < |Leaf(t).items| && !IsNamed(Leaf(t).items[i])
    ensures UsedPaths(main, t).Ok? ==> |UsedPaths(main, t).value| <= |Leaf(t).items|
  {
    var items := Leaf(t).items;
    if UsedPaths(main, t).Ok? {
      var seg := Segments(main, t);
      ImageSize(seg, items, |items|);
    }
  }

  /** At most one path per member. */
  lemma {:induction false} ImageSize(seg: seq<string>, items: seq<UseTree>, n: nat)
    requires n <= |items|
    ensures |set i | 0 <= i < n :: seg + [NameOf(items[i])]| <= n
  {
    if n > 0 {
      ImageSize(seg, items, n - 1);
      var smaller := set i | 0 <= i < n - 1 :: seg + [NameOf(items[i])];
      assert (set i | 0 <= i < n :: seg + [NameOf(items[i])]) == smaller + {seg + [NameOf(items[n - 1])]};
    }
  }

  /** `use algorist::math::gcd;` records `math::gcd`. */
  lemma UsedPathsName()
    ensures UsedPaths("algorist", UsePath("algorist", UsePath("math", UseName("gcd")))) == Ok({["math", "gcd"]})
  {
    assert Segments("algorist", UsePath("algorist", UsePath("math", UseName("gcd")))) == ["math"];
    assert ["math"] + ["gcd"] == ["math", "gcd"];
  }

  /** `use algorist::io::*;` records `io`. */
  lemma UsedPathsGlob()
    ensures UsedPaths("algorist", UsePath("algorist", UsePath("io", UseGlob))) == Ok({["io"]})
  {
    assert Segments("algorist", UsePath("algorist", UsePath("io", UseGlob))) == ["io"];
  }

  /** `use algorist::collections::{bitset, deque as dq};` records both modules, `deque` under its own name. */
  lemma UsedPathsGroup()
    ensures UsedPaths("algorist", UsePath("algorist", UsePath("collections", UseGroup([UseName("bitset"), UseRename("deque", "dq")]))))
      == Ok({["collections", "bitset"], ["collections", "deque"]})
  {
    var g := [UseName("bitset"), UseRename("deque", "dq")];
    var gt := UsePath("algorist", UsePath("collections", UseGroup(g)));
    assert Segments("algorist", gt) == ["collections"];
    var s := set i | 0 <= i < |g| :: ["collections"] + [NameOf(g[i])];
    assert UsedPaths("algorist", gt) == Ok(s);
    GroupOfTwo(["collections"], g);
    assert NameOf(g[0]) == "bitset" && NameOf(g[1]) == "deque";
    assert ["collections"] + ["bitset"] == ["collections", "bitset"];
    assert ["collections"] + ["deque"] == ["collections", "deque"];
  }

  lemma GroupOfTwo(seg: seq<string>, g: seq<UseTree>)
    requires |g| == 2
    ensures (set i | 0 <= i < |g| :: seg + [NameOf(g[i])]) == {seg + [NameOf(g[0])], seg + [NameOf(g[1])]}
  {
    var s := set i | 0 <= i < |g| :: seg + [NameOf(g[i])];
    assert seg + [NameOf(g[0])] in s;
    assert seg + [NameOf(g[1])] in s;
  }

  /** `use algorist::{io, math::gcd};` fails: a group member may not be a path. */
  lemma UsedPathsNestedGroup()
    ensures UsedPaths("algorist", UsePath("algorist", UseGroup([UseName("io"), UsePath("math", UseName("gcd"))]))).Err?
  {
    var h := [UseName("io"), UsePath("math", UseName("gcd"))];
    assert !IsNamed(h[1]);
  }

  /** `visit_item_use` as written: skips only a path whose first segment is not `main`. */
  predicate IgnoredAsWritten(main: string, t: UseTree)
    ensures IgnoredAsWritten(main, t) ==> Ignored(main, t)
  {
    t.UsePath? && t.ident != main
  }

  /** The evident intent: every import that does not start with `main` is skipped. */
  predicate Ignored(main: string, t: UseTree) {
    !(t.UsePath? && t.ident == main)
  }

  /**
   * `use {std::io::Read};` is not a library import, yet as written it reaches
   * `process_item_use`, whose error is turned into a panic; skipped as
   * intended it records nothing and cannot fail.
   */
  lemma TopLevelGroupPanics()
    ensures var t := UseGroup([UsePath("std", UsePath("io", UseName("Read")))]);
      !IgnoredAsWritten("algorist", t) && UsedPaths("algorist", t).Err? && Ignored("algorist", t)
  {
    var t := UseGroup([UsePath("std", UsePath("io", UseName("Read")))]);
    assert !IsNamed(t.items[0]);
  }

  /** The skip test of the chosen reading. */
  predicate Skipped(rd: Reading, main: string, t: UseTree) {
    if rd.AsWritten? then IgnoredAsWritten(main, t) else Ignored(main, t)
  }

  /** The two readings differ only on imports that do not start with a path. */
  lemma IgnoredAgrees(main: string, t: UseTree)
    ensures t.UsePath? ==> (Ignored(main, t) <==> IgnoredAsWritten(main, t))
    ensures !t.UsePath? ==> Ignored(main, t) && !IgnoredAsWritten(main, t)
  {
  }

  /** Paths of two results together, the first error winning. */
  function Union(a: Result<set<seq<string>>, string>, b: Result<set<seq<string>>, string>): Result<set<seq<string>>, string> {
    if a.Err? then a else if b.Err? then b else Ok(a.value + b.value)
  }

  /** The paths the binary phase records from items: imports, and items of inline modules. */
  function CollectUses(rd: Reading, main: string, items: seq<Item>): Result<set<seq<string>>, string>
    decreases ItemsSize(items), 0
  {
    if |items| == 0 then Ok({})
    else
      var rest := CollectUses(rd, main, items[1..]);
      match items[0]
      case UseItem(_, t) => if Skipped(rd, main, t) then rest else Union(UsedPaths(main, t), rest)
      case ModItem(_, _, content) =>
        ContentSmaller(items);
        Union(CollectUses(rd, main, content), rest)
      case _ => rest
  }

  /** Every import, at any depth, starts with a path segment (no top-level group or glob). */
  predicate PathImports(items: seq<Item>)
    decreases ItemsSize(items), 1
  {
    |items| == 0 || (PathImport(items[0]) && PathImports(items[1..]))
  }

  predicate PathImport(item: Item)
    decreases ItemSize(item), 0
  {
    match item
    case UseItem(_, t) => t.UsePath?
    case ModItem(_, _, content) => PathImports(content)
    case _ => true
  }

  /** On imports that all start with a path, the skip test as written records what the intended one does. */
  lemma {:induction false} CollectUsesAgree(main: string, items: seq<Item>)
    requires PathImports(items)
    ensures CollectUses(AsWritten, main, items) == CollectUses(Intended, main, items)
    decreases ItemsSize(items)
  {
    if |items| > 0 {
      CollectUsesAgree(main, items[1..]);
      match items[0]
      case UseItem(_, t) =>
        IgnoredAgrees(main, t);
      case ModItem(_, _, content) =>
        ContentSmaller(items);
        CollectUsesAgree(main, content);
      case _ =>
    }
  }

  /**
   * A solution holding `use {std::io::Read};` fails as written and records
   * nothing as intended.
   */
  lemma CollectUsesGroupDiffers()
    ensures var items := [UseItem([], UseGroup([UsePath("std", UsePath("io", UseName("Read")))]))];
      CollectUses(AsWritten, "algorist", items).Err? && CollectUses(Intended, "algorist", items) == Ok({})
  {
    var items := [UseItem([], UseGroup([UsePath("std", UsePath("io", UseName("Read")))]))];
    TopLevelGroupPanics();
    assert items[1..] == [];
  }

  function ItemSize(item: Item): (n: nat)
    ensures n >= 1
  {
    match item
    case ModItem(_, _, content) => 1 + ItemsSize(content)
    case _ => 1
  }

  function ItemsSize(items: seq<Item>): nat {
    if |items| == 0 then 0 else ItemSize(items[0]) + ItemsSize(items[1..])
  }

  /**
   * `Bundler1`: the library name, the module paths the binary phase records,
   * and the syntax trees written to the output, in order.
   */
  class Bundler {
    const main: string
    const rd: Reading
    var usedMods: set<seq<string>>
    var out: seq<SourceFile>

    constructor(main: string, rd: Reading)
      ensures this.main == main && this.rd == rd && usedMods == {} && out == []
    {
      this.main := main;
      this.rd := rd;
      usedMods := {};
      out := [];
    }

    /** The loop of `process_item_use` that walks down the path segments. */
    method WalkPath(tree: UseTree) returns (segments: seq<string>, leaf: UseTree)
      ensures segments == Segments(main, tree) && leaf == Leaf(tree)
    {
      segments := [];
      leaf := tree;
      while leaf.UsePath?
        invariant segments + Segments(main, leaf) == Segments(main, tree)
        invariant Leaf(leaf) == Leaf(tree)
        decreases leaf
      {
        if leaf.ident != main {
          segments := segments + [leaf.ident];
        }
        leaf := leaf.tree;
      }
    }

    /** The group arm of `process_item_use`: one path per member, failing at the first member that is not a name. */
    method InsertGroup(segments: seq<string>, items: seq<UseTree>) returns (r: Result<(), string>)
      modifies this
      ensures out == old(out)
      ensures r.Ok? <==> GroupPaths(segments, items).Ok?
      ensures r.Ok? ==> usedMods == old(usedMods) + GroupPaths(segments, items).value
    {
      for i := 0 to |items|
        invariant out == old(out)
        invariant forall k :: 0 <= k < i ==> IsNamed(items[k])
        invariant usedMods == old(usedMods) + set k | 0 <= k < i :: segments + [NameOf(items[k])]
      {
        var item := items[i];
        if !IsNamed(item) {
          return Err("Unexpected UseTree item");
        }
        ghost var done := set k | 0 <= k < i :: segments + [NameOf(items[k])];
        assert (set k | 0 <= k < i + 1 :: segments + [NameOf(items[k])]) == done + {segments + [NameOf(item)]};
        usedMods := usedMods + {segments + [NameOf(item)]};
      }
      r := Ok(());
    }

    /** `process_item_use`: records `UsedPaths` of the import, or fails as it does. */
    method ProcessItemUse(tree: UseTree) returns (r: Result<(), string>)
      modifies this
      ensures out == old(out)
      ensures r.Ok? <==> UsedPaths(main, tree).Ok?
      ensures r.Ok? ==> usedMods == old(usedMods) + UsedPaths(main, tree).value
    {
      var segments, leaf := WalkPath(tree);
      match leaf {
      case UseName(id) =>
        usedMods := usedMods + {segments + [id]};
      case UseRename(id, _) =>
        usedMods := usedMods + {segments + [id]};
      case UseGlob =>
        usedMods := usedMods + {segments};
      case UseGroup(items) =>
        r := InsertGroup(segments, items);
        return;
      }
      r := Ok(());
    }

    /** `visit_item_use`: skipped imports record nothing, the others what `process_item_use` records. */
    method VisitItemUse(tree: UseTree) returns (r: Result<(), string>)
      modifies this
      ensures out == old(out)
      ensures Skipped(rd, main, tree) ==> r.Ok? && usedMods == old(usedMods)
      ensures !Skipped(rd, main, tree) ==> (r.Ok? <==> UsedPaths(main, tree).Ok?)
      ensures !Skipped(rd, main, tree) && r.Ok? ==> usedMods == old(usedMods) + UsedPaths(main, tree).value
    {
      if Skipped(rd, main, tree) {
        return Ok(());
      }
      r := ProcessItemUse(tree);
      if r.Err? {
        r := Err("Failed to process use tree");
      }
    }

    /** The `Visit` walk over items: every import, including those inside inline modules. */
    method VisitItems(items: seq<Item>) returns (r: Result<(), string>)
      modifies this
      ensures out == old(out)
      ensures r.Ok? <==> CollectUses(rd, main, items).Ok?
      ensures r.Ok? ==> usedMods == old(usedMods) + CollectUses(rd, main, items).value
      decreases ItemsSize(items)
    {
      ghost var acc: set<seq<string>> := {};
      var i := 0;
      assert items[0..] == items;
      UnionEmpty(CollectUses(rd, main, items));
      while i < |items|
        invariant 0 <= i <= |items|
        invariant usedMods == old(usedMods) + acc
        invariant out == old(out)
        invariant CollectUses(rd, main, items) == Union(Ok(acc), CollectUses(rd, main, items[i..]))
        decreases |items| - i
      {
        assert items[i..][1..] == items[i + 1..];
        ghost var rest := CollectUses(rd, main, items[i + 1..]);
        SuffixSmaller(items, i);
        match items[i] {
        case UseItem(_, t) =>
          ghost var here := UsedPaths(main, t);
          var sub := VisitItemUse(t);
          if sub.Err? {
            return sub;
          }
          if !Skipped(rd, main, t) {
            UnionAssoc(acc, here.value, rest);
            acc := acc + here.value;
          }
        case ModItem(_, _, content) =>
          ghost var here := CollectUses(rd, main, content);
          var sub := VisitItems(content);
          if sub.Err? {
            return sub;
          }
          UnionAssoc(acc, here.value, rest);
          acc := acc + here.value;
        case _ =>
        }
        i := i + 1;
      }
      assert items[i..] == [];
      r := Ok(());
    }

    /**
     * `process_binary_file`: reads the solution, records the modules it
     * imports, and writes its syntax tree unchanged.
     */
    method ProcessBinaryFile(fs: map<string, SourceFile>, src: string) returns (r: Result<(), string>)
      modifies this
      ensures r.Ok? <==> src in fs && CollectUses(rd, main, fs[src].items).Ok?
      ensures r.Ok? ==> usedMods == old(usedMods) + CollectUses(rd, main, fs[src].items).value
      ensures r.Ok? ==> out == old(out) + [fs[src]]
    {
      if src !in fs {
        return Err("failed to read source file");
      }
      var ast := fs[src];
      r := VisitItems(ast.items);
      if r.Ok? {
        out := out + [ast];
      }
    }

    /**
     * `process_library_file`: writes the library with every module file
     * expanded and the whole wrapped in one module named `main`.
     */
    method ProcessLibraryFile(fs: map<string, SourceFile>, fuel: nat) returns (r: Result<(), string>)
      modifies this
      ensures usedMods == old(usedMods)
      ensures r.Ok? <==> LibraryBundle(rd, fs, main, fuel).Ok?
      ensures r.Ok? ==> out == old(out) + [LibraryBundle(rd, fs, main, fuel).value]
      ensures r.Err? ==> out == old(out)
    {
      var bundled := LibraryBundle(rd, fs, main, fuel);
      if bundled.Err? {
        return Err(bundled.error);
      }
      out := out + [bundled.value];
      r := Ok(());
    }

    /** `run`: the binary phase, then the library phase. */
    method Run(fs: map<string, SourceFile>, src: string, fuel: nat) returns (r: Result<(), string>)
      requires usedMods == {} && out == []
      modifies this
      ensures r.Ok? <==> src in fs && CollectUses(rd, main, fs[src].items).Ok? && LibraryBundle(rd, fs, main, fuel).Ok?
      ensures r.Ok? ==> usedMods == CollectUses(rd, main, fs[src].items).value
      ensures r.Ok? ==> out == [fs[src], LibraryBundle(rd, fs, main, fuel).value]
    {
      r := ProcessBinaryFile(fs, src);
      if r.Err? {
        return;
      }
      r := ProcessLibraryFile(fs, fuel);
    }
  }

  lemma UnionEmpty(r: Result<set<seq<string>>, string>)
    ensures Union(Ok({}), r) == r
  {
    if r.Ok? {
      assert {} + r.value == r.value;
    }
  }

  lemma UnionAssoc(a: set<seq<string>>, b: set<seq<string>>, rest: Result<set<seq<string>>, string>)
    ensures Union(Ok(a), Union(Ok(b), rest)) == Union(Ok(a + b), rest)
  {
    if rest.Ok? {
      assert a + (b + rest.value) == a + b + rest.value;
    }
  }

  /** The items of a leading module are fewer than the items around it. */
  lemma ContentSmaller(items: seq<Item>)
    requires |items| > 0 && items[0].ModItem?
    ensures ItemsSize(items[0].content) < ItemsSize(items)
  {
  }

  /** An item of a list is no larger than the list from it on. */
  lemma SuffixSmaller(items: seq<Item>, i: nat)
    requires i < |items|
    ensures ItemSize(items[i]) <= ItemsSize(items[i..]) <= ItemsSize(items)
  {
    assert items[i..][0] == items[i];
    SuffixSize(items, i);
  }

  lemma {:induction false} SuffixSize(items: seq<Item>, i: nat)
    requires i <= |items|
    ensures ItemsSize(items[i..]) <= ItemsSize(items)
  {
    if i > 0 {
      SuffixSize(items[1..], i - 1);
      assert items[1..][i - 1..] == items[i..];
    }
  }

  // ---------------------------------------------------------------------
  // Library phase: attributes

  /** `visit_attributes_mut` drops `doc`, `allow`, `cfg` and `warn` attributes. */
  predicate Dropped(a: Attr) {
    a.path == ["doc"] || a.path == ["allow"] || a.path == ["cfg"] || a.path == ["warn"]
  }

  /** The attributes kept, in order. */
  function Kept(attrs: seq<Attr>): seq<Attr> {
    if |attrs| == 0 then []
    else (if Dropped(attrs[0]) then [] else [attrs[0]]) + Kept(attrs[1..])
  }

  /**
   * An attribute is kept exactly when it was there and is not dropped; the
   * kept ones keep their order, and filtering again changes nothing.
   */
  lemma {:induction false} KeptSpec(attrs: seq<Attr>)
    ensures forall a :: a in Kept(attrs) <==> a in attrs && !Dropped(a)
    ensures Kept(Kept(attrs)) == Kept(attrs)
    ensures |Kept(attrs)| <= |attrs|
  {
    if |attrs| > 0 {
      KeptSpec(attrs[1..]);
      var rest := Kept(attrs[1..]);
      if !Dropped(attrs[0]) {
        assert Kept(attrs) == [attrs[0]] + rest;
        assert Kept(attrs)[0] == attrs[0] && Kept(attrs)[1..] == rest;
      } else {
        assert Kept(attrs) == rest;
      }
    }
  }

  /** Filtering a concatenation filters each part. */
  lemma {:induction false} KeptAppend(a: seq<Attr>, b: seq<Attr>)
    ensures Kept(a + b) == Kept(a) + Kept(b)
  {
    if |a| > 0 {
      assert (a + b)[1..] == a[1..] + b;
      KeptAppend(a[1..], b);
    } else {
      assert a + b == b;
    }
  }

  /** `visit_attributes_mut`: drains the attributes and keeps those not dropped. */
  method FilterAttributes(attrs: seq<Attr>) returns (kept: seq<Attr>)
    ensures kept == Kept(attrs)
  {
    kept := [];
    for i := 0 to |attrs|
      invariant kept == Kept(attrs[..i])
    {
      KeptAppend(attrs[..i], [attrs[i]]);
      assert attrs[..i + 1] == attrs[..i] + [attrs[i]];
      if !Dropped(attrs[i]) {
        kept := kept + [attrs[i]];
      }
    }
    assert attrs[..|attrs|] == attrs;
  }

  // ---------------------------------------------------------------------
  // Library phase: expanding modules

  /**
   * `process_item_mod_mut` as written: the file of `mod name;` under `base`
   * is `base/name.rs`, else `base/name/mod.rs`, and the modules that file
   * declares are looked for in the directory holding it.
   */
  function ResolveModuleAsWritten(fs: map<string, SourceFile>, base: string, name: string): (r: Result<(string, SourceFile), string>)
    ensures r.Err? <==> base + "/" + name + ".rs" !in fs && base + "/" + name + "/mod.rs" !in fs
    ensures r.Ok? ==>
      (r.value.0 + "/" + name + ".rs" in fs && r.value.1 == fs[r.value.0 + "/" + name + ".rs"]) ||
      (r.value.0 + "/mod.rs" in fs && r.value.1 == fs[r.value.0 + "/mod.rs"])
  {
    assert base + "/" + name + "/mod.rs" == (base + "/" + name) + "/mod.rs";
    if base + "/" + name + ".rs" in fs then Ok((base, fs[base + "/" + name + ".rs"]))
    else if base + "/" + name + "/mod.rs" in fs then Ok((base + "/" + name, fs[base + "/" + name + "/mod.rs"]))
    else Err("Module file not found")
  }

  /**
   * Module files as the language lays them out: the file is found in the same
   * two places, and the modules it declares live in `base/name` either way.
   */
  function ResolveModule(fs: map<string, SourceFile>, base: string, name: string): Result<(string, SourceFile), string> {
    if base + "/" + name + ".rs" in fs then Ok((base + "/" + name, fs[base + "/" + name + ".rs"]))
    else if base + "/" + name + "/mod.rs" in fs then Ok((base + "/" + name, fs[base + "/" + name + "/mod.rs"]))
    else Err("Module file not found")
  }

  /**
   * Both look for `name.rs` before `name/mod.rs` and fail when neither
   * exists; they agree on the file and differ only in the directory of its
   * submodules, which the corrected one always takes from the module's name.
   */
  lemma ResolveModuleSpec(fs: map<string, SourceFile>, base: string, name: string)
    ensures ResolveModule(fs, base, name).Ok? <==> base + "/" + name + ".rs" in fs || base + "/" + name + "/mod.rs" in fs
    ensures ResolveModuleAsWritten(fs, base, name).Ok? <==> ResolveModule(fs, base, name).Ok?
    ensures ResolveModule(fs, base, name).Ok? ==>
      ResolveModule(fs, base, name).value.0 == base + "/" + name &&
      ResolveModule(fs, base, name).value.1 == ResolveModuleAsWritten(fs, base, name).value.1 &&
      ResolveModule(fs, base, name).value.1 == (if base + "/" + name + ".rs" in fs then fs[base + "/" + name + ".rs"] else fs[base + "/" + name + "/mod.rs"])
  {
  }

  /**
   * A library whose `src/foo.rs` declares `mod bar;` with the file at
   * `src/foo/bar.rs`: as written, `bar` is looked for in `src` and the
   * bundler panics; laid out as the language does, it is found.
   */
  lemma NestedFileModuleMissed(lib: SourceFile, foo: SourceFile, bar: SourceFile)
    ensures var fs := map["src/lib.rs" := lib, "src/foo.rs" := foo, "src/foo/bar.rs" := bar];
      ResolveModuleAsWritten(fs, "src", "foo") == Ok(("src", foo)) &&
      ResolveModuleAsWritten(fs, "src", "bar").Err? &&
      ResolveModule(fs, "src", "foo") == Ok(("src/foo", foo)) &&
      ResolveModule(fs, "src/foo", "bar") == Ok(("src/foo/bar", bar))
  {
    var fs := map["src/lib.rs" := lib, "src/foo.rs" := foo, "src/foo/bar.rs" := bar];
    assert "src" + "/" + "foo" + ".rs" == "src/foo.rs";
    assert "src/foo" + "/" + "bar" + ".rs" == "src/foo/bar.rs";
    assert "src" + "/" + "foo" == "src/foo" && "src/foo" + "/" + "bar" == "src/foo/bar";
    var barFile := "src" + "/" + "bar" + ".rs";
    var barDir := "src" + "/" + "bar" + "/mod.rs";
    assert barFile[4] == 'b' && barDir[4] == 'b';
    assert "src/lib.rs"[4] == 'l' && "src/foo.rs"[4] == 'f' && "src/foo/bar.rs"[4] == 'f';
    assert barFile !in fs && barDir !in fs;
  }

  /** The module file and the directory of its submodules, as the chosen reading finds them. */
  function Resolve(rd: Reading, fs: map<string, SourceFile>, base: string, name: string): Result<(string, SourceFile), string> {
    if rd.AsWritten? then ResolveModuleAsWritten(fs, base, name) else ResolveModule(fs, base, name)
  }

  const OutOfFuel := "module nesting too deep"

  /**
   * `visit_item_mut` in the library phase. Every item's attributes are
   * filtered. A `mod m;` gets the items of its file, visited against the
   * directory of its submodules; then, as for every module, the module's
   * items are visited against `base`. `fuel` bounds how deep files may
   * include files.
   */
  function VisitItem(rd: Reading, fs: map<string, SourceFile>, fuel: nat, base: string, item: Item): (r: Result<Item, string>)
    ensures r.Ok? ==> SameShape(item, r.value)
    decreases fuel, ItemSize(item), 0
  {
    match item
    case UseItem(attrs, t) => Ok(UseItem(Kept(attrs), t))
    case OtherItem(attrs, text) => Ok(OtherItem(Kept(attrs), text))
    case ModItem(attrs, name, content) =>
      var inner :- VisitItems(rd, fs, fuel, base, content);
      Ok(ModItem(Kept(attrs), name, inner))
    case ModDecl(attrs, name) =>
      if fuel == 0 then Err(OutOfFuel)
      else
        var found :- Resolve(rd, fs, base, name);
        var loaded :- VisitItems(rd, fs, fuel - 1, found.0, found.1.items);
        var inner :- VisitItems(rd, fs, fuel - 1, base, loaded);
        Ok(ModItem(Kept(attrs), name, inner))
  }

  /** Visiting each item in turn, stopping at the first failure. */
  function VisitItems(rd: Reading, fs: map<string, SourceFile>, fuel: nat, base: string, items: seq<Item>): (r: Result<seq<Item>, string>)
    ensures r.Ok? ==> |r.value| == |items|
    decreases fuel, ItemsSize(items), 1
  {
    if |items| == 0 then Ok([])
    else
      var first :- VisitItem(rd, fs, fuel, base, items[0]);
      var rest :- VisitItems(rd, fs, fuel, base, items[1..]);
      Ok([first] + rest)
  }

  /** No `mod m;` is left at any depth. */
  predicate Resolved(items: seq<Item>)
    decreases ItemsSize(items), 1
  {
    |items| == 0 || (ResolvedItem(items[0]) && Resolved(items[1..]))
  }

  predicate ResolvedItem(item: Item)
    decreases ItemSize(item), 0
  {
    match item
    case ModItem(_, _, content) => Resolved(content)
    case ModDecl(_, _) => false
    case _ => true
  }

  /** Items with only their attributes filtered, at every depth. */
  function Clean(items: seq<Item>): (r: seq<Item>)
    ensures |r| == |items|
    decreases ItemsSize(items), 1
  {
    if |items| == 0 then [] else [CleanItem(items[0])] + Clean(items[1..])
  }

  function CleanItem(item: Item): Item
    decreases ItemSize(item), 0
  {
    match item
    case UseItem(attrs, t) => UseItem(Kept(attrs), t)
    case OtherItem(attrs, text) => OtherItem(Kept(attrs), text)
    case ModItem(attrs, name, content) => ModItem(Kept(attrs), name, Clean(content))
    case ModDecl(attrs, name) => ModDecl(Kept(attrs), name)
  }

  /**
   * Items with no `mod m;` left are visited without reading any file and
   * without using fuel: only their attributes are filtered.
   */
  lemma {:induction false} VisitResolved(rd: Reading, fs: map<string, SourceFile>, fuel: nat, base: string, items: seq<Item>)
    requires Resolved(items)
    ensures VisitItems(rd, fs, fuel, base, items) == Ok(Clean(items))
    decreases ItemsSize(items), 1
  {
    if |items| > 0 {
      VisitResolvedItem(rd, fs, fuel, base, items[0]);
      VisitResolved(rd, fs, fuel, base, items[1..]);
    }
  }

  lemma {:induction false} VisitResolvedItem(rd: Reading, fs: map<string, SourceFile>, fuel: nat, base: string, item: Item)
    requires ResolvedItem(item)
    ensures VisitItem(rd, fs, fuel, base, item) == Ok(CleanItem(item))
    decreases ItemSize(item), 0
  {
    if item.ModItem? {
      VisitResolved(rd, fs, fuel, base, item.content);
    }
  }

  /** The same kind of item with the same name, import or text, and its attributes filtered. */
  predicate SameShape(before: Item, after: Item) {
    match before
    case ModItem(attrs, name, _) => after.ModItem? && after.name == name && after.attrs == Kept(attrs)
    case ModDecl(attrs, name) => after.ModItem? && after.name == name && after.attrs == Kept(attrs)
    case UseItem(attrs, t) => after == UseItem(Kept(attrs), t)
    case OtherItem(attrs, text) => after == OtherItem(Kept(attrs), text)
  }

  /**
   * A visit keeps every item, in order and of the same kind, filters its
   * attributes, and leaves no `mod m;` behind.
   */
  lemma {:induction false} VisitResolves(rd: Reading, fs: map<string, SourceFile>, fuel: nat, base: string, items: seq<Item>)
    requires VisitItems(rd, fs, fuel, base, items).Ok?
    ensures Resolved(VisitItems(rd, fs, fuel, base, items).value)
    ensures |VisitItems(rd, fs, fuel, base, items).value| == |items|
    ensures forall i :: 0 <= i < |items| ==> SameShape(items[i], VisitItems(rd, fs, fuel, base, items).value[i])
    ensures Clean(VisitItems(rd, fs, fuel, base, items).value) == VisitItems(rd, fs, fuel, base, items).value
    decreases fuel, ItemsSize(items), 2
  {
    if |items| > 0 {
      VisitResolvesItem(rd, fs, fuel, base, items[0]);
      VisitResolves(rd, fs, fuel, base, items[1..]);
      var r := VisitItems(rd, fs, fuel, base, items).value;
      var rest := VisitItems(rd, fs, fuel, base, items[1..]).value;
      assert r == [VisitItem(rd, fs, fuel, base, items[0]).value] + rest;
      assert r[1..] == rest;
      forall i | 0 < i < |items|
        ensures SameShape(items[i], r[i])
      {
        assert items[i] == items[1..][i - 1] && r[i] == rest[i - 1];
      }
    }
  }

  lemma {:induction false} VisitResolvesItem(rd: Reading, fs: map<string, SourceFile>, fuel: nat, base: string, item: Item)
    requires VisitItem(rd, fs, fuel, base, item).Ok?
    ensures ResolvedItem(VisitItem(rd, fs, fuel, base, item).value)
    ensures SameShape(item, VisitItem(rd, fs, fuel, base, item).value)
    ensures CleanItem(VisitItem(rd, fs, fuel, base, item).value) == VisitItem(rd, fs, fuel, base, item).value
    decreases fuel, ItemSize(item), 1
  {
    match item
    case ModItem(attrs, name, content) =>
      VisitResolvesModItem(rd, fs, fuel, base, item);
    case ModDecl(attrs, name) =>
      VisitResolvesModDecl(rd, fs, fuel, base, item);
    case _ =>
      KeptSpec(item.attrs);
  }

  lemma {:induction false} VisitResolvesModItem(rd: Reading, fs: map<string, SourceFile>, fuel: nat, base: string, item: Item)
    requires item.ModItem? && VisitItem(rd, fs, fuel, base, item).Ok?
    ensures ResolvedItem(VisitItem(rd, fs, fuel, base, item).value)
    ensures SameShape(item, VisitItem(rd, fs, fuel, base, item).value)
    ensures CleanItem(VisitItem(rd, fs, fuel, base, item).value) == VisitItem(rd, fs, fuel, base, item).value
    decreases fuel, ItemSize(item), 0
  {
    VisitResolves(rd, fs, fuel, base, item.content);
    var inner := VisitItems(rd, fs, fuel, base, item.content).value;
    assert VisitItem(rd, fs, fuel, base, item) == Ok(ModItem(Kept(item.attrs), item.name, inner));
    KeptSpec(item.attrs);
  }

  lemma {:induction false} VisitResolvesModDecl(rd: Reading, fs: map<string, SourceFile>, fuel: nat, base: string, item: Item)
    requires item.ModDecl? && VisitItem(rd, fs, fuel, base, item).Ok?
    ensures ResolvedItem(VisitItem(rd, fs, fuel, base, item).value)
    ensures SameShape(item, VisitItem(rd, fs, fuel, base, item).value)
    ensures CleanItem(VisitItem(rd, fs, fuel, base, item).value) == VisitItem(rd, fs, fuel, base, item).value
    decreases fuel, ItemSize(item), 0
  {
    var found := Resolve(rd, fs, base, item.name).value;
    var loaded := VisitItems(rd, fs, fuel - 1, found.0, found.1.items).value;
    VisitResolves(rd, fs, fuel - 1, base, loaded);
    var inner := VisitItems(rd, fs, fuel - 1, base, loaded).value;
    assert VisitItem(rd, fs, fuel, base, item) == Ok(ModItem(Kept(item.attrs), item.name, inner));
    KeptSpec(item.attrs);
  }

  /**
   * The second pass `visit_item_mod_mut` makes over a module's items changes
   * nothing: what a visit returns, a visit from any directory with any fuel
   * returns again.
   */
  lemma VisitTwice(rd: Reading, fs: map<string, SourceFile>, fuel: nat, base: string, items: seq<Item>, fuel2: nat, base2: string)
    requires VisitItems(rd, fs, fuel, base, items).Ok?
    ensures VisitItems(rd, fs, fuel2, base2, VisitItems(rd, fs, fuel, base, items).value) == VisitItems(rd, fs, fuel, base, items)
  {
    var r := VisitItems(rd, fs, fuel, base, items).value;
    VisitResolves(rd, fs, fuel, base, items);
    VisitResolved(rd, fs, fuel2, base2, r);
  }

  // ---------------------------------------------------------------------
  // Library phase: where the two readings agree

  /** A name a `mod m;` can carry in a library laid out with `mod.rs` files: not `lib`, not `mod`, no `/`. */
  predicate PlainName(name: string) {
    name != "lib" && name != "mod" && '/' !in name
  }

  /** Every `mod m;`, at any depth, names a plain module. */
  predicate WellNamed(items: seq<Item>)
    decreases ItemsSize(items), 1
  {
    |items| == 0 || (WellNamedItem(items[0]) && WellNamed(items[1..]))
  }

  predicate WellNamedItem(item: Item)
    decreases ItemSize(item), 0
  {
    match item
    case ModItem(_, _, content) => WellNamed(content)
    case ModDecl(_, name) => PlainName(name)
    case _ => true
  }

  /** The file `base/name.rs`. */
  function FilePath(base: string, name: string): string {
    base + "/" + name + ".rs"
  }

  /**
   * A library laid out with `mod.rs` files: a module with submodules lives in
   * `name/mod.rs`, so no `name.rs` file declares a `mod m;`, and every
   * declaration names a plain module.
   */
  ghost predicate ModRsLayout(fs: map<string, SourceFile>) {
    (forall b, n :: FilePath(b, n) in fs && PlainName(n) ==> Resolved(fs[FilePath(b, n)].items)) &&
    (forall k :: k in fs ==> WellNamed(fs[k].items))
  }

  /** On a `mod.rs` layout, expanding modules as written gives what the intended resolution gives. */
  lemma {:induction false} VisitItemsAgree(fs: map<string, SourceFile>, fuel: nat, base: string, items: seq<Item>)
    requires ModRsLayout(fs) && WellNamed(items)
    ensures VisitItems(AsWritten, fs, fuel, base, items) == VisitItems(Intended, fs, fuel, base, items)
    decreases fuel, ItemsSize(items), 2
  {
    if |items| > 0 {
      VisitItemAgree(fs, fuel, base, items[0]);
      VisitItemsAgree(fs, fuel, base, items[1..]);
    }
  }

  lemma {:induction false} VisitItemAgree(fs: map<string, SourceFile>, fuel: nat, base: string, item: Item)
    requires ModRsLayout(fs) && WellNamedItem(item)
    ensures VisitItem(AsWritten, fs, fuel, base, item) == VisitItem(Intended, fs, fuel, base, item)
    decreases fuel, ItemSize(item), 1
  {
    match item
    case ModItem(_, _, content) =>
      VisitItemsAgree(fs, fuel, base, content);
    case ModDecl(_, name) =>
      if fuel > 0 && FilePath(base, name) in fs {
        LeafFileAgrees(fs, fuel, base, item);
      } else if fuel > 0 {
        ModRsFileAgrees(fs, fuel, base, item);
      }
    case _ =>
  }

  /** A `name.rs` file declares no module: both readings load it whole, wherever they look for its submodules. */
  lemma LeafFileAgrees(fs: map<string, SourceFile>, fuel: nat, base: string, item: Item)
    requires ModRsLayout(fs) && item.ModDecl? && PlainName(item.name)
    requires fuel > 0 && FilePath(base, item.name) in fs
    ensures VisitItem(AsWritten, fs, fuel, base, item) == VisitItem(Intended, fs, fuel, base, item)
  {
    var file := fs[FilePath(base, item.name)];
    assert Resolved(file.items);
    LeafFileLoaded(AsWritten, fs, fuel, base, item, base, file);
    LeafFileLoaded(Intended, fs, fuel, base, item, base + "/" + item.name, file);
  }

  /** A module whose file declares no module gets that file's items with their attributes filtered. */
  lemma LeafFileLoaded(rd: Reading, fs: map<string, SourceFile>, fuel: nat, base: string, item: Item, dir: string, file: SourceFile)
    requires item.ModDecl? && fuel > 0 && Resolved(file.items)
    requires Resolve(rd, fs, base, item.name) == Ok((dir, file))
    ensures VisitItem(rd, fs, fuel, base, item) == Ok(ModItem(Kept(item.attrs), item.name, Clean(Clean(file.items))))
  {
    VisitResolved(rd, fs, fuel - 1, dir, file.items);
    VisitResolves(rd, fs, fuel - 1, dir, file.items);
    VisitResolved(rd, fs, fuel - 1, base, Clean(file.items));
  }

  /** Without a `name.rs` file both readings look for the module's submodules in `base/name`. */
  lemma {:induction false} ModRsFileAgrees(fs: map<string, SourceFile>, fuel: nat, base: string, item: Item)
    requires ModRsLayout(fs) && item.ModDecl?
    requires fuel > 0 && FilePath(base, item.name) !in fs
    ensures VisitItem(AsWritten, fs, fuel, base, item) == VisitItem(Intended, fs, fuel, base, item)
    decreases fuel, ItemSize(item), 0
  {
    var dir := base + "/" + item.name;
    assert base + "/" + item.name + ".rs" !in fs;
    assert base + "/" + item.name + "/mod.rs" == dir + "/mod.rs";
    if dir + "/mod.rs" in fs {
      var file := fs[dir + "/mod.rs"];
      VisitItemsAgree(fs, fuel - 1, dir, file.items);
      SameFileAgrees(fs, fuel, base, item, dir, file);
    }
  }

  /**
   * When both readings load the same file with the same submodule directory
   * and expand its items alike, the module comes out alike.
   */
  lemma SameFileAgrees(fs: map<string, SourceFile>, fuel: nat, base: string, item: Item, dir: string, file: SourceFile)
    requires item.ModDecl? && fuel > 0
    requires Resolve(AsWritten, fs, base, item.name) == Ok((dir, file)) == Resolve(Intended, fs, base, item.name)
    requires VisitItems(AsWritten, fs, fuel - 1, dir, file.items) == VisitItems(Intended, fs, fuel - 1, dir, file.items)
    ensures VisitItem(AsWritten, fs, fuel, base, item) == VisitItem(Intended, fs, fuel, base, item)
  {
    var loaded := VisitItems(AsWritten, fs, fuel - 1, dir, file.items);
    if loaded.Ok? {
      VisitResolves(AsWritten, fs, fuel - 1, dir, file.items);
      VisitResolved(AsWritten, fs, fuel - 1, base, loaded.value);
      VisitResolved(Intended, fs, fuel - 1, base, loaded.value);
    }
  }

  // ---------------------------------------------------------------------
  // Library phase: the bundled library

  /** The attributes of the wrapping module, kept as they are. */
  const WrapAttrs: seq<Attr> := [
    Attr(["doc"], " [Algorist](https://crates.io/crates/algorist) library"),
    Attr(["allow"], "dead_code"),
    Attr(["allow"], "unused_imports"),
    Attr(["allow"], "unused_macros")
  ]

  /**
   * `process_library_file`: `src/lib.rs` with its attributes filtered and its
   * items visited, the items then moved into one module named `main`.
   */
  function LibraryBundle(rd: Reading, fs: map<string, SourceFile>, main: string, fuel: nat): (r: Result<SourceFile, string>)
    ensures "src/lib.rs" !in fs ==> r == Err("failed to read library file")
    ensures r.Ok? ==>
      |r.value.items| == 1 && r.value.items[0].ModItem? && r.value.items[0].name == main &&
      |r.value.items[0].content| == |fs["src/lib.rs"].items|
  {
    if "src/lib.rs" !in fs then Err("failed to read library file")
    else
      var lib := fs["src/lib.rs"];
      var items :- VisitItems(rd, fs, fuel, "src", lib.items);
      Ok(SourceFile(Kept(lib.attrs), [ModItem(WrapAttrs, main, items)]))
  }

  /**
   * The bundled library is one module named `main` holding every item of
   * `src/lib.rs`, in order and of the same kind, with no `mod m;` left and
   * no `doc`, `allow`, `cfg` or `warn` attribute other than the wrapper's own.
   */
  lemma LibraryShape(rd: Reading, fs: map<string, SourceFile>, main: string, fuel: nat)
    requires LibraryBundle(rd, fs, main, fuel).Ok?
    ensures var lib := fs["src/lib.rs"];
      var r := LibraryBundle(rd, fs, main, fuel).value;
      |r.items| == 1 && r.items[0].ModItem? && r.items[0].name == main && r.items[0].attrs == WrapAttrs &&
      |r.items[0].content| == |lib.items| &&
      (forall i :: 0 <= i < |lib.items| ==> SameShape(lib.items[i], r.items[0].content[i])) &&
      Resolved(r.items[0].content) &&
      (forall a :: a in r.attrs ==> a in lib.attrs && !Dropped(a))
  {
    var lib := fs["src/lib.rs"];
    VisitResolves(rd, fs, fuel, "src", lib.items);
    KeptSpec(lib.attrs);
  }

  /** On a `mod.rs` layout the library is bundled as written exactly as intended. */
  lemma LibraryBundleAgrees(fs: map<string, SourceFile>, main: string, fuel: nat)
    requires ModRsLayout(fs)
    ensures LibraryBundle(AsWritten, fs, main, fuel) == LibraryBundle(Intended, fs, main, fuel)
  {
    if "src/lib.rs" in fs {
      VisitItemsAgree(fs, fuel, "src", fs["src/lib.rs"].items);
    }
  }

  /**
   * `src/lib.rs` declaring `mod foo;`, `src/foo.rs` declaring `mod bar;` and
   * `src/foo/bar.rs`: as written the library cannot be bundled, as intended
   * it can.
   */
  lemma NestedFileBundle()
    ensures var fs := map["src/lib.rs" := SourceFile([], [ModDecl([], "foo")]),
                          "src/foo.rs" := SourceFile([], [ModDecl([], "bar")]),
                          "src/foo/bar.rs" := SourceFile([], [])];
      LibraryBundle(AsWritten, fs, "algorist", 2).Err? && LibraryBundle(Intended, fs, "algorist", 2).Ok?
  {
    var lib := SourceFile([], [ModDecl([], "foo")]);
    var foo := SourceFile([], [ModDecl([], "bar")]);
    var bar := SourceFile([], []);
    var fs := map["src/lib.rs" := lib, "src/foo.rs" := foo, "src/foo/bar.rs" := bar];
    NestedFileModuleMissed(lib, foo, bar);
    assert VisitItems(AsWritten, fs, 1, "src", foo.items).Err?;
    assert VisitItem(AsWritten, fs, 2, "src", lib.items[0]).Err?;
    assert VisitItems(Intended, fs, 0, "src/foo/bar", bar.items) == Ok([]);
    assert VisitItem(Intended, fs, 1, "src/foo", foo.items[0]).Ok?;
    assert VisitItems(Intended, fs, 1, "src/foo", foo.items).Ok?;
    assert VisitItem(Intended, fs, 2, "src", lib.items[0]).Ok?;
  }

  /** The library is bundled whole, whatever the solution imports, and fails only on a missing file or nesting too deep. */
  lemma LibraryFails(rd: Reading, fs: map<string, SourceFile>, main: string, fuel: nat)
    requires LibraryBundle(rd, fs, main, fuel).Err?
    ensures LibraryBundle(rd, fs, main, fuel).error in {"failed to read library file", "Module file not found", OutOfFuel}
  {
    if "src/lib.rs" in fs {
      VisitErrors(rd, fs, fuel, "src", fs["src/lib.rs"].items);
    }
  }

  lemma {:induction false} VisitErrors(rd: Reading, fs: map<string, SourceFile>, fuel: nat, base: string, items: seq<Item>)
    requires VisitItems(rd, fs, fuel, base, items).Err?
    ensures VisitItems(rd, fs, fuel, base, items).error in {"Module file not found", OutOfFuel}
    decreases fuel, ItemsSize(items), 1
  {
    if VisitItem(rd, fs, fuel, base, items[0]).Err? {
      VisitItemErrors(rd, fs, fuel, base, items[0]);
    } else {
      VisitErrors(rd, fs, fuel, base, items[1..]);
    }
  }

  lemma {:induction false} VisitItemErrors(rd: Reading, fs: map<string, SourceFile>, fuel: nat, base: string, item: Item)
    requires VisitItem(rd, fs, fuel, base, item).Err?
    ensures VisitItem(rd, fs, fuel, base, item).error in {"Module file not found", OutOfFuel}
    decreases fuel, ItemSize(item), 0
  {
    match item
    case ModItem(_, _, content) =>
      VisitErrors(rd, fs, fuel, base, content);
    case ModDecl(_, name) =>
      if fuel > 0 && Resolve(rd, fs, base, name).Ok? {
        var found := Resolve(rd, fs, base, name).value;
        var loaded := VisitItems(rd, fs, fuel - 1, found.0, found.1.items);
        if loaded.Err? {
          VisitErrors(rd, fs, fuel - 1, found.0, found.1.items);
        } else {
          VisitErrors(rd, fs, fuel - 1, base, loaded.value);
        }
      }
    case _ =>
  }
}
