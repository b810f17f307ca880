/**
 * The body of the `saxicon` task (tasks/saxicon.js lines 75-106): the checks
 * on the merged options, the call to `globSVGFiles`, and the check that the
 * source directory held SVG files. `grunt.fail.warn` stops the task, so the
 * first warning is the outcome.
 */
module Task {
  import opened Glob
  import Naming

  /** The `iconName` callback: file name to icon name. */
  type IconNamer = string -> string

  /** The `svgs.fileName` callback: (file path, icon name, colour name, colour) to file name. */
  type FileNamer = (string, string, string, string) -> string

  /** An option value as `_.isFunction` sees it. */
  datatype Callable<F> = Function(call: F) | NotFunction

  /** `options.source` as `_.isString` sees it. */
  datatype Source = Text(path: string) | NotText

  /**
   * `options.svgs`: `undefined` or `null`, whose `fileName` cannot be read, or
   * any other value, whose `fileName` property is read.
   */
  datatype Svgs = Nullish | WithFileName(fileName: Callable<FileNamer>)

  /** The options after grunt has merged the task's defaults with the configuration. */
  datatype Options = Options(iconName: Callable<IconNamer>, svgs: Svgs, source: Source)

  datatype Warning = IconNameNotFunction | FileNameNotFunction | SourceNotString | NoSvgFiles

  /** A warning that stopped the task, the TypeError of reading `fileName` of `svgs`, or the icon map. */
  datatype Outcome = Warned(warning: Warning) | Threw | Globbed(icons: map<string, string>)

  /** The options when the configuration sets only `source` (lines 80-89). */
  function OnlySource(path: string): Options
  {
    Options(Function(Naming.DefaultIconName), WithFileName(Function(Naming.DefaultFileName)), Text(path))
  }

  /** Both callbacks are functions (lines 91-96). */
  predicate CallbacksValid(o: Options) {
    o.iconName.Function? && o.svgs.WithFileName? && o.svgs.fileName.Function?
  }

  /** All three checks pass (lines 91-99). */
  predicate OptionsValid(o: Options) {
    CallbacksValid(o) && o.source.Text?
  }

  // ---------------------------------------------------------------------
  // the emptiness check of lines 103-105

  /** A JavaScript value `svgFiles.length` can be compared with. */
  datatype JsValue = Undefined | Str(s: string) | Num(n: int)

  /**
   * `svgFiles.length` as written: the icon map is a plain object, so this is
   * the entry of an icon named "length" if there is one, else `undefined`.
   */
  function LengthProperty(icons: map<string, string>): (v: JsValue)
    ensures !v.Num?
  {
    if "length" in icons then Str(icons["length"]) else Undefined
  }

  /** `svgFiles.length === 0` as written (line 103): it never holds. */
  predicate LengthIsZero(icons: map<string, string>): (zero: bool)
    ensures !zero
  {
    LengthProperty(icons) == Num(0)
  }

  /** The check as written never fires, not even when the directory holds no SVG file. */
  lemma {:induction false} EmptySourceNotReported(dir: string, iconName: IconNamer, join: (string, string) -> string)
    ensures IconMap(dir, [], iconName, join) == map[]
    ensures !LengthIsZero(IconMap(dir, [], iconName, join))
  {
  }

  /** The check as intended: the icon map has no entry. */
  predicate NoIcons(icons: map<string, string>) {
    |icons| == 0
  }

  /** The intended check fires exactly when no file gave a usable icon name, so always for an empty directory. */
  lemma {:induction false} NoIconsExactly(dir: string, files: seq<string>, iconName: IconNamer, join: (string, string) -> string)
    ensures NoIcons(IconMap(dir, files, iconName, join)) <==> forall k :: 0 <= k < |files| ==> iconName(files[k]) == ProtoKey
    ensures files == [] ==> NoIcons(IconMap(dir, files, iconName, join))
  {
    IconMapEmpty(dir, files, iconName, join);
  }

  // ---------------------------------------------------------------------
  // the task body

  /**
   * Lines 91-105 as written, given the merged options, the names the glob
   * finds in the source directory and `path.join`. The emptiness check is
   * `svgFiles.length === 0`, which never holds, so valid options always
   * reach the icon map.
   */
  method RunTask(o: Options, files: seq<string>, join: (string, string) -> string) returns (outcome: Outcome)
    ensures outcome == Warned(IconNameNotFunction) <==> o.iconName.NotFunction?
    ensures outcome == Threw <==> o.iconName.Function? && o.svgs.Nullish?
    ensures outcome == Warned(FileNameNotFunction) <==>
              o.iconName.Function? && o.svgs.WithFileName? && o.svgs.fileName.NotFunction?
    ensures outcome == Warned(SourceNotString) <==> CallbacksValid(o) && o.source.NotText?
    ensures outcome != Warned(NoSvgFiles)
    ensures outcome.Globbed? <==> OptionsValid(o)
    ensures outcome.Globbed? ==> outcome.icons == IconMap(o.source.path, files, o.iconName.call, join)
  {
    if o.iconName.NotFunction? {
      return Warned(IconNameNotFunction);
    }
    if o.svgs.Nullish? {
      return Threw;
    }
    if o.svgs.fileName.NotFunction? {
      return Warned(FileNameNotFunction);
    }
    if o.source.NotText? {
      return Warned(SourceNotString);
    }
    var icons := GlobSvgFiles(o.source.path, files, o.iconName.call, join);
    outcome := if LengthIsZero(icons) then Warned(NoSvgFiles) else Globbed(icons);
  }

  /**
   * Lines 91-105 with the emptiness check the warning message intends: the
   * task stops when the icon map has no entry.
   */
  method RunTaskIntended(o: Options, files: seq<string>, join: (string, string) -> string) returns (outcome: Outcome)
    ensures outcome == Warned(IconNameNotFunction) <==> o.iconName.NotFunction?
    ensures outcome == Threw <==> o.iconName.Function? && o.svgs.Nullish?
    ensures outcome == Warned(FileNameNotFunction) <==>
              o.iconName.Function? && o.svgs.WithFileName? && o.svgs.fileName.NotFunction?
    ensures outcome == Warned(SourceNotString) <==> CallbacksValid(o) && o.source.NotText?
    ensures outcome == Warned(NoSvgFiles) <==>
              OptionsValid(o) && forall k :: 0 <= k < |files| ==> o.iconName.call(files[k]) == ProtoKey
    ensures outcome.Globbed? ==> OptionsValid(o) && outcome.icons == IconMap(o.source.path, files, o.iconName.call, join)
    ensures OptionsValid(o) && files != [] && o.iconName.call(files[0]) != ProtoKey ==> outcome.Globbed?
  {
    if o.iconName.NotFunction? {
      return Warned(IconNameNotFunction);
    }
    if o.svgs.Nullish? {
      return Threw;
    }
    if o.svgs.fileName.NotFunction? {
      return Warned(FileNameNotFunction);
    }
    if o.source.NotText? {
      return Warned(SourceNotString);
    }
    var icons := GlobSvgFiles(o.source.path, files, o.iconName.call, join);
    NoIconsExactly(o.source.path, files, o.iconName.call, join);
    if NoIcons(icons) {
      return Warned(NoSvgFiles);
    }
    return Globbed(icons);
  }

  /**
   * With only `source` configured the checks pass, and the file `base.svg`,
   * unless a later file has the same base name, is listed under `base`.
   */
  lemma {:induction false} DefaultsGlob(path: string, files: seq<string>, join: (string, string) -> string, k: nat, base: string)
    requires k < |files| && files[k] == base + Naming.SvgExtension && base != ProtoKey
    requires forall i :: 0 <= i < |base| ==> !Naming.IsLineTerminator(base[i])
    requires forall j :: k < j < |files| ==> Naming.DefaultIconName(files[j]) != base
    ensures OptionsValid(OnlySource(path))
    ensures base in IconMap(path, files, Naming.DefaultIconName, join)
    ensures IconMap(path, files, Naming.DefaultIconName, join)[base] == join(path, base + ".svg")
  {
    Naming.StripsOneExtension(base);
    IconMapLastWins(path, files, Naming.DefaultIconName, join, k);
  }
}
