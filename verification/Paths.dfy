/**
  Paths of the in-memory file system: splitting, joining, and the normalisation that
  require_relative applies before it looks a file up.
 */
module Paths {

  type Parts = seq<string>

  // ---- Split and join ---------------------------------------------------------------------------

  /** All fields between slashes, empty ones included. */
  function Fields(s: string): (parts: Parts)
    ensures |parts| > 0
  {
    if s == "" then [""]
    else
      var rest := Fields(s[1..]);
      if s[0] == '/' then [""] + rest else [[s[0]] + rest[0]] + rest[1..]
  }

  function DropTrailingEmpty(parts: Parts): Parts {
    if parts == [] || parts[|parts| - 1] != "" then parts else DropTrailingEmpty(parts[..|parts| - 1])
  }

  /** String#split: trailing empty fields are dropped. */
  function Split(s: string): Parts { DropTrailingEmpty(Fields(s)) }

  function Join(parts: Parts): string {
    if parts == [] then "" else if |parts| == 1 then parts[0] else parts[0] + "/" + Join(parts[1..])
  }

  lemma {:induction false} FieldsOfWord(s: string)
    requires '/' !in s
    ensures Fields(s) == [s]
  {
    if s != "" {
      FieldsOfWord(s[1..]);
      assert s == [s[0]] + s[1..];
    }
  }

  lemma {:induction false} FieldsAppend(a: string, b: string)
    ensures Fields(a + "/" + b) == Fields(a) + Fields(b)
  {
    if a == "" {
      assert (a + "/" + b)[1..] == b;
      FieldsUnfold(a + "/" + b);
    } else {
      hide Fields;
      FieldsAppend(a[1..], b);
      assert (a + "/" + b)[0] == a[0] && (a + "/" + b)[1..] == a[1..] + "/" + b;
      FieldsUnfold(a);
      FieldsUnfold(a + "/" + b);
      ExtendAppend(a[0], Fields(a[1..]), Fields(b));
    }
  }

  /** The fields of a string from those of its tail. */
  function Extend(c: char, rest: Parts): Parts
    requires |rest| > 0
  {
    if c == '/' then [""] + rest else [[c] + rest[0]] + rest[1..]
  }

  lemma FieldsUnfold(s: string)
    requires s != ""
    ensures Fields(s) == Extend(s[0], Fields(s[1..]))
  {
  }

  lemma ExtendAppend(c: char, a: Parts, b: Parts)
    requires |a| > 0
    ensures Extend(c, a + b) == Extend(c, a) + b
  {
    assert (a + b)[0] == a[0] && (a + b)[1..] == a[1..] + b;
  }

  /** Splitting inverts joining for parts without slashes. */
  lemma {:induction false} FieldsOfJoin(parts: Parts)
    requires parts != [] && forall p | p in parts :: '/' !in p
    ensures Fields(Join(parts)) == parts
  {
    FieldsOfWord(parts[0]);
    if |parts| > 1 {
      FieldsOfJoin(parts[1..]);
      FieldsAppend(parts[0], Join(parts[1..]));
    }
  }

  lemma {:induction false} FieldsHaveNoSlash(s: string)
    ensures forall p | p in Fields(s) :: '/' !in p
  {
    if s != "" {
      FieldsHaveNoSlash(s[1..]);
    }
  }

  // ---- Resolving . and .. -----------------------------------------------------------------------

  predicate Proper(p: string) { p != "" && p != "." && p != ".." }

  /** One part met by the normalising loop. */
  function Push(stack: Parts, p: string): Parts {
    if p == ".." then if stack == [] then [] else stack[..|stack| - 1]
    else if p == "." || p == "" then stack
    else stack + [p]
  }

  function Resolve(stack: Parts, parts: Parts): Parts
    decreases |parts|
  {
    if parts == [] then stack else Resolve(Push(stack, parts[0]), parts[1..])
  }

  /**
    Which parts survive, read from the right: every ".." cancels the nearest proper part before it
    that is not cancelled already.
   */
  function Survivors(parts: Parts, cancelled: nat): Parts
    decreases |parts|
  {
    if parts == [] then []
    else
      var front, p := parts[..|parts| - 1], parts[|parts| - 1];
      if p == ".." then Survivors(front, cancelled + 1)
      else if p == "." || p == "" then Survivors(front, cancelled)
      else if cancelled > 0 then Survivors(front, cancelled - 1)
      else Survivors(front, 0) + [p]
  }

  function Shortened(stack: Parts, n: nat): Parts {
    if n >= |stack| then [] else stack[..|stack| - n]
  }

  lemma {:induction false} ResolveAppend(stack: Parts, a: Parts, b: Parts)
    ensures Resolve(stack, a + b) == Resolve(Resolve(stack, a), b)
    decreases |a|
  {
    if a == [] {
      assert a + b == b;
    } else {
      ResolveAppend(Push(stack, a[0]), a[1..], b);
      assert (a + b)[1..] == a[1..] + b;
    }
  }

  lemma ResolveOne(stack: Parts, p: string)
    ensures Resolve(stack, [p]) == Push(stack, p)
  {
    assert [p][1..] == [];
  }

  lemma {:induction false} ResolveSurvives(parts: Parts, cancelled: nat)
    ensures Survivors(parts, cancelled) == Shortened(Resolve([], parts), cancelled)
    decreases |parts|
  {
    if parts != [] {
      var front, p := parts[..|parts| - 1], parts[|parts| - 1];
      assert front + [p] == parts;
      ResolveAppend([], front, [p]);
      ResolveOne(Resolve([], front), p);
      ResolveSurvives(front, cancelled + 1);
      ResolveSurvives(front, cancelled);
      ResolveSurvives(front, if cancelled > 0 then cancelled - 1 else 0);
    }
  }

  lemma {:induction false} ResolveIsProper(stack: Parts, parts: Parts)
    requires forall p | p in stack :: Proper(p) && '/' !in p
    requires forall p | p in parts :: '/' !in p
    ensures forall p | p in Resolve(stack, parts) :: Proper(p) && '/' !in p
    decreases |parts|
  {
    if parts != [] {
      assert parts[0] in parts;
      ResolveIsProper(Push(stack, parts[0]), parts[1..]);
    }
  }

  lemma {:induction false} ResolveProper(stack: Parts, parts: Parts)
    requires forall p | p in parts :: Proper(p)
    ensures Resolve(stack, parts) == stack + parts
    decreases |parts|
  {
    if parts == [] {
      assert stack + parts == stack;
    } else {
      assert parts[0] in parts;
      ResolveProper(stack + [parts[0]], parts[1..]);
      assert stack + [parts[0]] + parts[1..] == stack + parts;
    }
  }

  lemma {:induction false} ResolveIgnoresTrailing(stack: Parts, parts: Parts)
    ensures Resolve(stack, DropTrailingEmpty(parts)) == Resolve(stack, parts)
    decreases |parts|
  {
    if parts != [] && parts[|parts| - 1] == "" {
      var front := parts[..|parts| - 1];
      ResolveIgnoresTrailing(stack, front);
      assert front + [""] == parts;
      ResolveAppend(stack, front, [""]);
      ResolveOne(Resolve(stack, front), "");
    }
  }

  // ---- Normal paths -----------------------------------------------------------------------------

  function Normal(path: string): string { "/" + Join(Resolve([], Split(path))) }

  /** The components of a path, as the normalisation leaves them. */
  function Components(path: string): Parts { Resolve([], Fields(path)) }

  lemma NormalIsJoined(path: string)
    ensures Normal(path) == "/" + Join(Components(path))
    ensures forall p | p in Components(path) :: Proper(p) && '/' !in p
  {
    ResolveIgnoresTrailing([], Fields(path));
    FieldsHaveNoSlash(path);
    ResolveIsProper([], Fields(path));
  }

  /** Reading a joined list of proper components gives them back. */
  lemma ComponentsOfJoined(parts: Parts)
    requires forall p | p in parts :: Proper(p) && '/' !in p
    ensures Components("/" + Join(parts)) == parts
  {
    var path := "/" + Join(parts);
    FieldsAppend("", Join(parts));
    assert "" + "/" + Join(parts) == path;
    ResolveAppend([], [""], Fields(Join(parts)));
    ResolveOne([], "");
    if parts == [] {
      ResolveOne([], "");
    } else {
      FieldsOfJoin(parts);
      ResolveProper([], parts);
      assert [] + parts == parts;
    }
  }

  /** The normal form has exactly the surviving components, none of them empty, "." or "..". */
  lemma NormalIsCanonical(path: string)
    ensures Components(Normal(path)) == Components(path) == Survivors(Fields(path), 0)
    ensures forall p | p in Components(Normal(path)) :: Proper(p) && '/' !in p
  {
    NormalIsJoined(path);
    ComponentsOfJoined(Components(path));
    ResolveSurvives(Fields(path), 0);
    hide Normal, Join, Survivors, Resolve, Fields, Proper;
  }

  /** Split again, the normal form is an empty field and the surviving components, nothing else. */
  lemma NormalSplits(path: string)
    ensures Split(Normal(path)) == if Components(path) == [] then [] else [""] + Components(path)
  {
    var parts := Components(path);
    NormalIsJoined(path);
    FieldsAppend("", Join(parts));
    assert "" + "/" + Join(parts) == Normal(path);
    hide Normal, Components;
    if parts == [] {
      assert Fields(Normal(path)) == ["", ""] && ["", ""][..1] == [""] && [""][..0] == [];
      assert DropTrailingEmpty([""]) == DropTrailingEmpty([]);
    } else {
      FieldsOfJoin(parts);
      assert parts[|parts| - 1] in parts;
    }
  }

  lemma NormalIsIdempotent(path: string)
    ensures Normal(Normal(path)) == Normal(path)
  {
    NormalIsCanonical(path);
    NormalIsJoined(path);
    NormalIsJoined(Normal(path));
  }

  /** Two paths have the same normal form exactly when the same components survive in them. */
  lemma NormalDecidesSurvivors(a: string, b: string)
    ensures Normal(a) == Normal(b) <==> Survivors(Fields(a), 0) == Survivors(Fields(b), 0)
  {
    NormalIsCanonical(a);
    NormalIsCanonical(b);
    NormalIsJoined(a);
    NormalIsJoined(b);
  }

  /** A prefix may be normalised first. */
  lemma NormalOfAppended(a: string, b: string)
    ensures Normal(Normal(a) + "/" + b) == Normal(a + "/" + b)
  {
    FieldsAppend(a, b);
    FieldsAppend(Normal(a), b);
    ResolveAppend([], Fields(a), Fields(b));
    ResolveAppend([], Fields(Normal(a)), Fields(b));
    NormalIsCanonical(a);
    NormalIsJoined(a + "/" + b);
    NormalIsJoined(Normal(a) + "/" + b);
  }

  /** A proper part leads one level down, and ".." behind it back up again; the root is its own parent. */
  lemma UpUndoesDown(a: string, p: string)
    requires p != "" && p != "." && p != ".." && '/' !in p
    ensures Components(a + "/" + p) == Components(a) + [p]
    ensures Normal(a + "/" + p + "/" + "..") == Normal(a)
    ensures Normal(a + "/" + ".") == Normal(a) && Normal("..") == "/"
  {
    FieldsOfWord(p);
    FieldsOfWord("..");
    FieldsOfWord(".");
    FieldsAppend(a, p);
    FieldsAppend(a + "/" + p, "..");
    FieldsAppend(a, ".");
    ResolveAppend([], Fields(a), [p]);
    ResolveAppend([], Fields(a) + [p], [".."]);
    ResolveAppend([], Fields(a), ["."]);
    ResolveOne(Components(a), p);
    ResolveOne(Components(a) + [p], "..");
    ResolveOne(Components(a), ".");
    ResolveOne([], "..");
    NormalIsJoined(a);
    NormalIsJoined(a + "/" + p + "/" + "..");
    NormalIsJoined(a + "/" + ".");
    NormalIsJoined("..");
    hide Normal, Resolve, Fields;
  }

  // ---- The code -----------------------------------------------------------------------------------

  function Dirname(path: string): string {
    var parts := Split(path);
    if |parts| > 1 then Join(parts[..|parts| - 1]) else "/"
  }

  predicate EndsWith(s: string, suffix: string) {
    |suffix| <= |s| && s[|s| - |suffix|..] == suffix
  }

  function WithExtension(name: string): string { if EndsWith(name, ".rb") then name else name + ".rb" }

  /** The path that require_relative looks up. */
  function RelativePath(caller: string, name: string): string {
    Normal(WithExtension(Dirname(caller) + "/" + name))
  }

  lemma JoinUnfolds(parts: Parts)
    requires |parts| > 1
    ensures Join(parts) == parts[0] + "/" + Join(parts[1..])
  {
  }

  lemma {:induction false} JoinAppend(a: Parts, b: Parts)
    requires a != [] && b != []
    ensures Join(a + b) == Join(a) + "/" + Join(b)
  {
    if |a| == 1 {
      assert a + b == [a[0]] + b && (a + b)[1..] == b;
    } else {
      JoinUnfolds(a);
      JoinUnfolds(a + b);
      hide Join;
      JoinAppend(a[1..], b);
      assert (a + b)[1..] == a[1..] + b && (a + b)[0] == a[0];
      assert a[0] + "/" + (Join(a[1..]) + "/" + Join(b)) == a[0] + "/" + Join(a[1..]) + "/" + Join(b);
    }
  }

  lemma SplitOfJoin(parts: Parts)
    requires parts != [] && parts[|parts| - 1] != "" && forall p | p in parts :: '/' !in p
    ensures Split(Join(parts)) == parts
  {
    FieldsOfJoin(parts);
  }

  /** Up to the last slash the directory is what came before it; without a slash it is the root. */
  lemma DirnameOfJoin(dirs: Parts, f: string)
    requires f != "" && '/' !in f && forall p | p in dirs :: '/' !in p
    ensures Dirname(Join(dirs + [f])) == if dirs == [] then "/" else Join(dirs)
  {
    var parts := dirs + [f];
    SplitOfJoin(parts);
    assert parts[..|parts| - 1] == dirs;
  }

  /** A name with the extension, unless it has it. */
  function Named(l: string): string { if |l| >= 3 && l[|l| - 3..] == ".rb" then l else l + ".rb" }

  /** The last part with the extension. */
  function Extended(names: Parts): Parts
    requires names != []
  {
    names[..|names| - 1] + [Named(names[|names| - 1])]
  }

  /** The extension is looked for behind the last slash. */
  lemma ExtensionOfLast(a: string, l: string)
    requires '/' !in l
    ensures WithExtension(a + "/" + l) == a + "/" + Named(l)
  {
    var s := a + "/" + l;
    assert a + "/" + (l + ".rb") == s + ".rb";
    assert ".rb"[0] == '.' && ".rb"[1] == 'r' && ".rb"[2] == 'b';
    if |l| >= 3 {
      assert s[|s| - 3..] == l[|l| - 3..];
    } else {
      assert s[|s| - 1 - |l|] == '/';
      if |s| >= 3 {
        assert s[|s| - 3..][2 - |l|] == '/';
      }
    }
  }

  lemma JoinOne(p: string)
    ensures Join([p]) == p
  {
  }

  lemma ExtensionOfJoin(front: Parts, names: Parts)
    requires front != [] && names != [] && '/' !in names[|names| - 1]
    ensures WithExtension(Join(front + names)) == Join(front + Extended(names))
  {
    var init, l := front + names[..|names| - 1], names[|names| - 1];
    ExtendedParts(front, names);
    JoinOne(l);
    JoinOne(Named(l));
    hide Join, WithExtension, Extended, Named;
    JoinAppend(init, [l]);
    JoinAppend(init, [Named(l)]);
    ExtensionOfLast(Join(init), l);
  }

  lemma ExtendedParts(front: Parts, names: Parts)
    requires names != []
    ensures front + names == front + names[..|names| - 1] + [names[|names| - 1]]
    ensures front + Extended(names) == front + names[..|names| - 1] + [Named(names[|names| - 1])]
  {
    hide Named;
  }

  /** The parts in front of the name: the directories, or those of the root. */
  function Base(dirs: Parts): Parts { if dirs == [] then ["", ""] else dirs }

  lemma LookupIsJoined(dirs: Parts, f: string, names: Parts)
    requires f != "" && '/' !in f && names != []
    requires (forall p | p in dirs :: '/' !in p) && (forall p | p in names :: '/' !in p)
    ensures RelativePath(Join(dirs + [f]), Join(names)) == Normal(Join(Base(dirs) + Extended(names)))
  {
    hide Normal, Dirname, WithExtension, Join, Extended;
    DirnameOfJoin(dirs, f);
    BaseJoins(dirs);
    JoinAppend(Base(dirs), names);
    ExtensionOfJoin(Base(dirs), names);
    hide Base;
  }

  lemma BaseJoins(dirs: Parts)
    ensures Join(Base(dirs)) == if dirs == [] then "/" else Join(dirs)
  {
    assert Join(["", ""]) == "/";
  }

  lemma NormalOfJoin(parts: Parts)
    requires parts != [] && forall p | p in parts :: '/' !in p
    ensures Normal(Join(parts)) == "/" + Join(Survivors(parts, 0))
    ensures Components(Normal(Join(parts))) == Survivors(parts, 0)
  {
    FieldsOfJoin(parts);
    NormalIsCanonical(Join(parts));
    NormalIsJoined(Join(parts));
    hide *;
  }

  /**
    What require_relative looks up: the directories of the calling file, whether it names any or not,
    followed by the name with its extension, and all of it resolved.
   */
  lemma RelativePathResolves(dirs: Parts, f: string, names: Parts)
    requires f != "" && '/' !in f && names != []
    requires (forall p | p in dirs :: '/' !in p) && (forall p | p in names :: '/' !in p)
    ensures RelativePath(Join(dirs + [f]), Join(names)) == "/" + Join(Survivors(dirs + Extended(names), 0))
    ensures Components(RelativePath(Join(dirs + [f]), Join(names))) == Survivors(dirs + Extended(names), 0)
  {
    var parts := Base(dirs) + Extended(names);
    LookupIsJoined(dirs, f, names);
    ExtendedHasNoSlash(names);
    NormalOfJoin(parts);
    EmptiesVanish(Extended(names));
    assert dirs == [] ==> dirs + Extended(names) == Extended(names);
    hide Normal, Join, Survivors, Components, RelativePath, Extended;
  }

  lemma ExtendedHasNoSlash(parts: Parts)
    requires parts != [] && forall p | p in parts :: '/' !in p
    ensures forall p | p in Extended(parts) :: '/' !in p
  {
    var l := parts[|parts| - 1];
    assert '/' !in l && '/' !in ".rb";
    assert '/' !in l + ".rb";
  }

  lemma EmptiesVanish(parts: Parts)
    ensures Survivors(["", ""] + parts, 0) == Survivors(parts, 0)
  {
    ResolveSurvives(["", ""] + parts, 0);
    ResolveSurvives(parts, 0);
    ResolveAppend([], ["", ""], parts);
    assert ["", ""] == [""] + [""];
    ResolveAppend([], [""], [""]);
    ResolveOne([], "");
  }

  method NormalisePath(full: string) returns (path: string)
    ensures path == Normal(full)
  {
    var parts := Split(full);
    var normalized: Parts := [];
    for i := 0 to |parts|
      invariant Resolve([], parts) == Resolve(normalized, parts[i..])
    {
      var p := parts[i];
      if p == ".." {
        if normalized != [] {
          normalized := normalized[..|normalized| - 1];
        }
      } else if p != "." && p != "" {
        normalized := normalized + [p];
      }
    }
    path := "/" + Join(normalized);
  }
}
