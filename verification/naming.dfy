/**
 * The default naming callbacks of the task's options (tasks/saxicon.js lines
 * 81-87): the icon name of a source file, and the file name of one colour
 * variant of an icon.
 */
module Naming {

  /** What `.` in a JavaScript regular expression without the `s` flag does not match. */
  predicate IsLineTerminator(c: char) {
    c == '\n' || c == '\r' || c == '\U{2028}' || c == '\U{2029}'
  }

  const SvgExtension := ".svg"

  /** `fileName` matches /^(.*)\.svg$/: it ends in ".svg" and no line break precedes that. */
  predicate MatchesSvgName(fileName: string) {
    && |fileName| >= |SvgExtension|
    && fileName[|fileName| - |SvgExtension|..] == SvgExtension
    && forall k :: 0 <= k < |fileName| - |SvgExtension| ==> !IsLineTerminator(fileName[k])
  }

  /** The default `iconName`: `fileName.replace(/^(.*)\.svg$/, '$1')` (line 82). */
  function DefaultIconName(fileName: string): (name: string)
    ensures |name| <= |fileName|
  {
    if MatchesSvgName(fileName) then fileName[..|fileName| - |SvgExtension|] else fileName
  }

  /** The default `svgs.fileName`: `iconName + '.' + colorName + '.svg'` (line 86). */
  function DefaultFileName(filePath: string, iconName: string, colorName: string, color: string): (name: string)
    ensures |name| == |iconName| + |colorName| + 5
  {
    iconName + "." + colorName + SvgExtension
  }

  // ---------------------------------------------------------------------
  // properties

  /** Exactly one trailing ".svg" is removed from a name without line breaks. */
  lemma {:induction false} StripsOneExtension(base: string)
    requires forall k :: 0 <= k < |base| ==> !IsLineTerminator(base[k])
    ensures DefaultIconName(base + SvgExtension) == base
  {
    var f := base + SvgExtension;
    assert f[|f| - |SvgExtension|..] == SvgExtension;
    assert f[..|f| - |SvgExtension|] == base;
  }

  /** Names that do not end in ".svg" are left as they are. */
  lemma {:induction false} KeepsOtherNames(fileName: string)
    requires |fileName| < |SvgExtension| || fileName[|fileName| - |SvgExtension|..] != SvgExtension
    ensures DefaultIconName(fileName) == fileName
  {
  }

  /** "a.svg.svg" loses only its last extension. */
  lemma {:induction false} DoubleExtension()
    ensures DefaultIconName("a.svg.svg") == "a.svg"
  {
    StripsOneExtension("a.svg");
    assert "a.svg" + SvgExtension == "a.svg.svg";
  }

  /**
   * With both defaults, the source file `base.svg` and the colour `color`
   * give the output file `base.color.svg`.
   */
  lemma {:induction false} DefaultVariantName(base: string, filePath: string, colorName: string, color: string)
    requires forall k :: 0 <= k < |base| ==> !IsLineTerminator(base[k])
    ensures DefaultFileName(filePath, DefaultIconName(base + SvgExtension), colorName, color)
            == base + "." + colorName + ".svg"
  {
    StripsOneExtension(base);
  }

  /** Reading a variant's file name back with the default `iconName` gives "icon.color". */
  lemma {:induction false} VariantNameRoundTrip(filePath: string, iconName: string, colorName: string, color: string)
    requires forall k :: 0 <= k < |iconName| ==> !IsLineTerminator(iconName[k])
    requires forall k :: 0 <= k < |colorName| ==> !IsLineTerminator(colorName[k])
    ensures DefaultIconName(DefaultFileName(filePath, iconName, colorName, color)) == iconName + "." + colorName
  {
    var stem := iconName + "." + colorName;
    assert forall k :: 0 <= k < |stem| ==> !IsLineTerminator(stem[k]) by {
      forall k | 0 <= k < |stem| ensures !IsLineTerminator(stem[k]) {
        if k < |iconName| {
          assert stem[k] == iconName[k];
        } else if k > |iconName| {
          assert stem[k] == colorName[k - |iconName| - 1];
        }
      }
    }
    StripsOneExtension(stem);
  }

  /** In `a + "." + n` with no '.' in `n`, the '.' at `|a|` is the last one. */
  lemma {:induction false} LastDot(a: string, n: string)
    requires '.' !in n
    ensures (a + "." + n)[|a|] == '.'
    ensures forall k :: |a| < k < |a + "." + n| ==> (a + "." + n)[k] != '.'
  {
    var s := a + "." + n;
    forall k | |a| < k < |s| ensures s[k] != '.' {
      assert s[k] == n[k - |a| - 1];
    }
  }

  /**
   * Colour names without a '.' keep the default file names of distinct
   * (icon, colour) pairs distinct.
   */
  lemma {:induction false} DefaultFileNameInjective(p1: string, i1: string, n1: string, c1: string,
                                 p2: string, i2: string, n2: string, c2: string)
    requires '.' !in n1 && '.' !in n2
    requires DefaultFileName(p1, i1, n1, c1) == DefaultFileName(p2, i2, n2, c2)
    ensures i1 == i2 && n1 == n2
  {
    var s1, s2 := i1 + "." + n1, i2 + "." + n2;
    assert s1 + SvgExtension == s2 + SvgExtension;
    assert s1 == (s1 + SvgExtension)[..|s1|];
    assert s1 == s2;
    LastDot(i1, n1);
    LastDot(i2, n2);
    assert s2[|i1|] == '.';
    assert s1[|i2|] == '.';
    assert |i1| == |i2|;
    assert i1 == s1[..|i1|] == s2[..|i2|] == i2;
    assert n1 == s1[|i1| + 1..] == s2[|i2| + 1..] == n2;
  }
}
