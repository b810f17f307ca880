/**
 * `globSVGFiles` (tasks/saxicon.js lines 64-73): the icon map from the icon
 * name of each SVG file in a directory to the file's path. The directory
 * listing is taken as the sequence of names the glob returns, in its order,
 * and `path.join` as an uninterpreted function of directory and file name.
 * The map is a plain JavaScript object, on which assigning a string to the
 * key "__proto__" goes to the prototype setter, which ignores it: an icon of
 * that name is dropped.
 */
module Glob {

  /** The one key a plain object does not store a string under. */
  const ProtoKey := "__proto__"

  /** The map the loop builds, as a left fold: each file in turn sets its icon name's entry. */
  function IconMap(dir: string, files: seq<string>, iconName: string -> string,
                   join: (string, string) -> string): (icons: map<string, string>)
    ensures |icons| <= |files|
    ensures ProtoKey !in icons
    decreases |files|
  {
    if files == [] then map[]
    else
      var last := files[|files| - 1];
      var before := IconMap(dir, files[..|files| - 1], iconName, join);
      if iconName(last) == ProtoKey then before else before[iconName(last) := join(dir, last)]
  }

  /** Lines 64-73: one callback per file, in glob order, each result keyed to the file's path. */
  method GlobSvgFiles(dir: string, files: seq<string>, iconName: string -> string,
                      join: (string, string) -> string) returns (icons: map<string, string>)
    ensures icons == IconMap(dir, files, iconName, join)
  {
    icons := map[];
    var i := 0;
    while i < |files|
      invariant 0 <= i <= |files|
      invariant icons == IconMap(dir, files[..i], iconName, join)
    {
      var name := iconName(files[i]);
      if name != ProtoKey {
        icons := icons[name := join(dir, files[i])];
      }
      assert files[..i + 1][..i] == files[..i];
      i := i + 1;
    }
    assert files[..|files|] == files;
  }

  /** The callback's results over the files. */
  function IconNames(files: seq<string>, iconName: string -> string): set<string>
  {
    set k | 0 <= k < |files| :: iconName(files[k])
  }

  /** One more file adds its name to the names. */
  lemma IconNamesSnoc(files: seq<string>, iconName: string -> string)
    requires files != []
    ensures IconNames(files, iconName) == IconNames(files[..|files| - 1], iconName) + {iconName(files[|files| - 1])}
  {
    var init := files[..|files| - 1];
    var all := IconNames(files, iconName);
    var before := IconNames(init, iconName);
    forall x | x in all ensures x in before + {iconName(files[|files| - 1])} {
      var k :| 0 <= k < |files| && x == iconName(files[k]);
      if k < |init| {
        assert init[k] == files[k];
      }
    }
    forall x | x in before ensures x in all {
      var k :| 0 <= k < |init| && x == iconName(init[k]);
      assert init[k] == files[k];
    }
  }

  /** The icon names are exactly the callback's results over the files, "__proto__" aside. */
  lemma {:induction false} IconMapKeys(dir: string, files: seq<string>, iconName: string -> string,
                                       join: (string, string) -> string)
    ensures IconMap(dir, files, iconName, join).Keys == IconNames(files, iconName) - {ProtoKey}
    decreases |files|
  {
    if files != [] {
      var init := files[..|files| - 1];
      IconMapKeys(dir, init, iconName, join);
      IconNamesSnoc(files, iconName);
      var name := iconName(files[|files| - 1]);
      var m := IconMap(dir, init, iconName, join);
      if name == ProtoKey {
        assert IconMap(dir, files, iconName, join) == m;
      } else {
        assert IconMap(dir, files, iconName, join).Keys == m.Keys + {name};
      }
    }
  }

  /**
   * Each name maps to the path of the LAST file that has it: a later file
   * with the same icon name silently replaces an earlier one.
   */
  lemma {:induction false} IconMapLastWins(dir: string, files: seq<string>, iconName: string -> string,
                                           join: (string, string) -> string, k: nat)
    requires k < |files| && iconName(files[k]) != ProtoKey
    requires forall j :: k < j < |files| ==> iconName(files[j]) != iconName(files[k])
    ensures iconName(files[k]) in IconMap(dir, files, iconName, join)
    ensures IconMap(dir, files, iconName, join)[iconName(files[k])] == join(dir, files[k])
    decreases |files|
  {
    var init := files[..|files| - 1];
    if k < |files| - 1 {
      assert init[k] == files[k];
      forall j | k < j < |init| ensures iconName(init[j]) != iconName(init[k]) {
        assert init[j] == files[j];
      }
      IconMapLastWins(dir, init, iconName, join, k);
    }
  }

  /** Names that are all different, none of them "__proto__", give one entry per file. */
  lemma {:induction false} IconMapSize(dir: string, files: seq<string>, iconName: string -> string,
                                       join: (string, string) -> string)
    requires forall i, j :: 0 <= i < j < |files| ==> iconName(files[i]) != iconName(files[j])
    requires forall i :: 0 <= i < |files| ==> iconName(files[i]) != ProtoKey
    ensures |IconMap(dir, files, iconName, join)| == |files|
    decreases |files|
  {
    if files != [] {
      var init := files[..|files| - 1];
      IconMapSize(dir, init, iconName, join);
      IconMapKeys(dir, init, iconName, join);
      var last := files[|files| - 1];
      forall k | 0 <= k < |init| ensures iconName(init[k]) != iconName(last) {
        assert init[k] == files[k];
      }
      assert iconName(last) !in IconMap(dir, init, iconName, join);
    }
  }

  /** The map is empty exactly when no file got an icon name other than "__proto__"; so when the glob found none. */
  lemma {:induction false} IconMapEmpty(dir: string, files: seq<string>, iconName: string -> string,
                                        join: (string, string) -> string)
    ensures |IconMap(dir, files, iconName, join)| == 0 <==> forall k :: 0 <= k < |files| ==> iconName(files[k]) == ProtoKey
    ensures files == [] ==> |IconMap(dir, files, iconName, join)| == 0
  {
    IconMapKeys(dir, files, iconName, join);
    var names := IconNames(files, iconName);
    if forall k :: 0 <= k < |files| ==> iconName(files[k]) == ProtoKey {
      assert names - {ProtoKey} == {};
    } else {
      var k :| 0 <= k < |files| && iconName(files[k]) != ProtoKey;
      assert iconName(files[k]) in names - {ProtoKey};
    }
  }
}
