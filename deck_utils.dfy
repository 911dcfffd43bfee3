/**
 * The numbered menu of deck files (deck_utils.py): each path becomes a label
 * counting from 1, the file's name without its directory and extension, and
 * the path itself. `os.path.basename` and `os.path.splitext` are modelled for
 * POSIX paths, whose only separator is '/'.
 */
module DeckUtils {

  // ---------------------------------------------------------------------------
  // Path names
  // ---------------------------------------------------------------------------

  /** `s.rfind(c)`: the position of the last `c`, or -1. */
  function LastIndexOfChar(s: string, c: char): (r: int)
    ensures -1 <= r < |s|
    ensures r >= 0 ==> s[r] == c
    ensures forall j :: r < j < |s| ==> s[j] != c
  {
    if s == [] then -1
    else if s[|s| - 1] == c then |s| - 1
    else LastIndexOfChar(s[..|s| - 1], c)
  }

  /** `os.path.basename(path)`: what follows the last '/'. */
  function Basename(path: string): (r: string)
    ensures '/' !in r
  {
    var i := LastIndexOfChar(path, '/') + 1;
    assert forall j :: 0 <= j < |path| - i ==> path[i..][j] == path[i + j];
    path[i..]
  }

  /** Only dots: `splitext` does not treat the leading dots of a name as an extension. */
  predicate AllDots(s: string) {
    forall k :: 0 <= k < |s| ==> s[k] == '.'
  }

  /** Where `splitext` cuts a base name: at the last dot, unless only dots precede it. */
  function ExtStart(name: string): (r: nat)
    ensures r <= |name|
  {
    var d := LastIndexOfChar(name, '.');
    if d >= 0 && !AllDots(name[..d]) then d else |name|
  }

  /** `os.path.splitext(name)[0]`. */
  function Root(name: string): string {
    name[..ExtStart(name)]
  }

  /** `os.path.splitext(name)[1]`. */
  function Ext(name: string): string {
    name[ExtStart(name)..]
  }

  /** The name a menu shows for a path: its base name without the extension. */
  function FileName(path: string): string {
    Root(Basename(path))
  }

  /**
   * `splitext` splits a name into a root and an extension that together are the
   * name; the extension is empty or one dot followed by no other dot, and the root
   * of a non-empty name is never empty.
   */
  lemma SplitExt(name: string)
    ensures Root(name) + Ext(name) == name
    ensures Ext(name) == [] || (Ext(name)[0] == '.' && '.' !in Ext(name)[1..])
    ensures name != [] ==> Root(name) != []
    ensures Ext(name) != [] ==> !AllDots(Root(name))
  {
    var e := Ext(name);
    if e != [] {
      assert e[0] == '.';
      forall k | 0 <= k < |e| - 1 ensures e[1..][k] != '.' {
        assert e[1..][k] == name[ExtStart(name) + 1 + k];
      }
    }
    assert AllDots(name[..0]);
  }

  /** A name whose every character is a dot (".", "..") has no extension. */
  lemma DotsHaveNoExt(name: string)
    requires AllDots(name)
    ensures Root(name) == name && Ext(name) == []
  {
    var d := LastIndexOfChar(name, '.');
    if d >= 0 {
      assert AllDots(name[..d]);
    }
  }

  /** `rfind` finds the `c` at `k` when no `c` follows it. */
  lemma LastIndexAt(s: string, c: char, k: nat)
    requires k < |s| && s[k] == c
    requires forall j :: k < j < |s| ==> s[j] != c
    ensures LastIndexOfChar(s, c) == k
  {
  }

  /** The base name of `dir + name` is `name` when `dir` ends at a separator. */
  lemma BasenameAfterSlash(dir: string, name: string)
    requires dir == [] || dir[|dir| - 1] == '/'
    requires '/' !in name
    ensures Basename(dir + name) == name
  {
    var path := dir + name;
    if dir == [] {
      assert path == name;
    } else {
      forall j | |dir| <= j < |path| ensures path[j] != '/' {
        assert path[j] == name[j - |dir|];
      }
      LastIndexAt(path, '/', |dir| - 1);
      assert path[|dir|..] == name;
    }
  }

  /** `splitext` cuts `stem + ext` at the dot that opens `ext`, when the stem is not all dots. */
  lemma RootOfStem(stem: string, ext: string)
    requires !AllDots(stem)
    requires |ext| > 0 && ext[0] == '.' && '.' !in ext[1..]
    ensures Root(stem + ext) == stem
  {
    var name := stem + ext;
    forall j | |stem| < j < |name| ensures name[j] != '.' {
      assert name[j] == ext[1..][j - |stem| - 1];
    }
    LastIndexAt(name, '.', |stem|);
    assert name[..|stem|] == stem;
  }

  /**
   * A deck file `<directory>/<stem>.json` is listed under its stem, whatever dots
   * the stem holds, as long as the stem is not all dots.
   */
  lemma StemOfFile(dir: string, stem: string, ext: string)
    requires dir == [] || dir[|dir| - 1] == '/'
    requires '/' !in stem && !AllDots(stem)
    requires |ext| > 0 && ext[0] == '.' && '/' !in ext && '.' !in ext[1..]
    ensures FileName(dir + stem + ext) == stem
  {
    assert dir + stem + ext == dir + (stem + ext);
    BasenameAfterSlash(dir, stem + ext);
    RootOfStem(stem, ext);
  }

  // ---------------------------------------------------------------------------
  // The menu
  // ---------------------------------------------------------------------------

  /** One menu line: `(counter, file_name, path)`. */
  datatype MenuEntry = MenuEntry(number: nat, name: string, path: string)

  /** The first `k` entries of the menu are those of the first `k` paths. */
  predicate Listed(paths: seq<string>, entries: seq<MenuEntry>, k: nat) {
    && k <= |paths| && |entries| == k
    && forall i :: 0 <= i < k ==> entries[i] == MenuEntry(i + 1, FileName(paths[i]), paths[i])
  }

  lemma ListedStep(paths: seq<string>, entries: seq<MenuEntry>, k: nat, entry: MenuEntry)
    requires Listed(paths, entries, k) && k < |paths|
    requires entry == MenuEntry(k + 1, FileName(paths[k]), paths[k])
    ensures Listed(paths, entries + [entry], k + 1)
  {
  }

  /**
   * `deck_menu_constructor`: one entry per path, in the order given, numbered
   * 1, 2, 3, ..., each carrying the path's file name and the path itself.
   */
  method DeckMenuConstructor(paths: seq<string>) returns (outputList: seq<MenuEntry>)
    ensures |outputList| == |paths|
    ensures forall i :: 0 <= i < |paths| ==> outputList[i].number == i + 1
    ensures forall i :: 0 <= i < |paths| ==> outputList[i].path == paths[i]
    ensures forall i :: 0 <= i < |paths| ==> outputList[i].name == FileName(paths[i])
  {
    outputList := [];
    var counter := 1;
    for k := 0 to |paths|
      invariant counter == k + 1 && Listed(paths, outputList, k)
    {
      var path := paths[k];
      var fileNameWExt := Basename(path);
      var fileName := Root(fileNameWExt);
      var tup := MenuEntry(counter, fileName, path);
      counter := counter + 1;
      ListedStep(paths, outputList, k, tup);
      outputList := outputList + [tup];
    }
    assert Listed(paths, outputList, |paths|);
  }
}
