/** Probing, formatting and mounting a volume, and staging it again and again. */
module Format {

  import opened Wrappers

  // ---- What blkid prints, and how it is read ----

  /** `strings.Split` with a one-character separator. */
  function Split(s: string, sep: char): (r: seq<string>)
    ensures |r| >= 1
  {
    if s == "" then [""]
    else if s[0] == sep then [""] + Split(s[1..], sep)
    else
      var rest := Split(s[1..], sep);
      [[s[0]] + rest[0]] + rest[1..]
  }

  lemma {:induction false} SplitAtFirst(a: string, sep: char, b: string)
    requires sep !in a
    ensures Split(a + [sep] + b, sep) == [a] + Split(b, sep)
    decreases |a|
  {
    var s := a + [sep] + b;
    if a == "" {
      assert s[0] == sep && s[1..] == b;
    } else {
      assert a[0] in a && s[0] == a[0] && s[1..] == a[1..] + [sep] + b;
      SplitAtFirst(a[1..], sep, b);
      assert [a[0]] + a[1..] == a;
      assert ([a[1..]] + Split(b, sep))[1..] == Split(b, sep);
    }
  }

  lemma {:induction false} SplitWithout(a: string, sep: char)
    requires sep !in a
    ensures Split(a, sep) == [a]
    decreases |a|
  {
    if a == "" {
    } else {
      assert a[0] in a;
      SplitWithout(a[1..], sep);
      assert [a[0]] + a[1..] == a;
    }
  }

  datatype Tag = Tag(key: string, value: string)

  predicate Clean(t: Tag) {
    '=' !in t.key && '=' !in t.value && '\n' !in t.key && '\n' !in t.value
  }

  /** `blkid -o export`: one line for each tag. */
  function Export(tags: seq<Tag>): string {
    if tags == [] then "" else tags[0].key + "=" + tags[0].value + "\n" + Export(tags[1..])
  }

  /** The value of the last tag with a key. */
  function Last(tags: seq<Tag>, key: string): string {
    if tags == [] then ""
    else if tags[|tags| - 1].key == key then tags[|tags| - 1].value
    else Last(tags[..|tags| - 1], key)
  }

  /** The format that `GetDiskFormat` reports for a disk that carries a partition table. */
  const PARTITIONED := "unknown data, probably partitions"

  lemma {:induction false} ExportSplitsIntoTags(tags: seq<Tag>)
    requires forall t :: t in tags ==> Clean(t)
    ensures Split(Export(tags), '\n') == seq(|tags|, i requires 0 <= i < |tags| => Line(tags[i])) + [""]
    decreases |tags|
  {
    if tags == [] {
    } else {
      var t := tags[0];
      var line := Line(t);
      assert Clean(t);
      assert Export(tags) == line + ['\n'] + Export(tags[1..]);
      SplitAtFirst(line, '\n', Export(tags[1..]));
      assert forall x :: x in tags[1..] ==> x in tags;
      ExportSplitsIntoTags(tags[1..]);
    }
  }

  lemma TagSplits(t: Tag)
    requires Clean(t)
    ensures Split(Line(t), '=') == [t.key, t.value]
  {
    SplitAtFirst(t.key, '=', t.value);
    SplitWithout(t.value, '=');
  }

  datatype Types = Types(fs: string, pt: string)

  /** One line of the output: empty lines are ignored, `KEY=VALUE` is taken, anything else is invalid. */
  function ReadLine(line: string, before: Types): Option<Types> {
    if line == "" then Some(before)
    else
      var cs := Split(line, '=');
      if |cs| != 2 then None
      else Some(if cs[0] == "TYPE" then before.(fs := cs[1])
                else if cs[0] == "PTTYPE" then before.(pt := cs[1])
                else before)
  }

  function ReadLines(lines: seq<string>): Option<Types>
    decreases |lines|
  {
    if lines == [] then Some(Types("", ""))
    else
      var n := |lines| - 1;
      match ReadLines(lines[..n])
      case None => None
      case Some(t) => ReadLine(lines[n], t)
  }

  /** The loop of `GetDiskFormat` over the output. */
  method ParseOutput(output: string) returns (r: Option<Types>)
    ensures r == ReadLines(Split(output, '\n'))
  {
    var lines := Split(output, '\n');
    var fstype, pttype := "", "";
    for i := 0 to |lines|
      invariant ReadLines(lines[..i]) == Some(Types(fstype, pttype))
    {
      assert lines[..i + 1][..i] == lines[..i];
      var l := lines[i];
      if |l| > 0 {
        var cs := Split(l, '=');
        if |cs| != 2 {
          BadLine(lines, i);
          return None;
        }
        if cs[0] == "TYPE" {
          fstype := cs[1];
        } else if cs[0] == "PTTYPE" {
          pttype := cs[1];
        }
      }
    }
    assert lines[..|lines|] == lines;
    return Some(Types(fstype, pttype));
  }

  /** One invalid line makes the whole output invalid. */
  lemma {:induction false} BadLine(lines: seq<string>, i: nat)
    requires i < |lines| && lines[i] != "" && |Split(lines[i], '=')| != 2
    ensures ReadLines(lines) == None
    decreases |lines|
  {
    if i == |lines| - 1 {
    } else {
      BadLine(lines[..|lines| - 1], i);
    }
  }

  function Line(t: Tag): string {
    t.key + "=" + t.value
  }

  lemma {:induction false} ReadsTags(tags: seq<Tag>)
    requires forall t :: t in tags ==> Clean(t)
    ensures ReadLines(seq(|tags|, i requires 0 <= i < |tags| => Line(tags[i]))) ==
            Some(Types(Last(tags, "TYPE"), Last(tags, "PTTYPE")))
    decreases |tags|
  {
    if tags == [] {
    } else {
      var n := |tags| - 1;
      var lines := seq(|tags|, i requires 0 <= i < |tags| => Line(tags[i]));
      ReadsTags(tags[..n]);
      assert lines[..n] == seq(n, i requires 0 <= i < n => Line(tags[..n][i]));
      assert tags[n] in tags;
      TagSplits(tags[n]);
    }
  }

  /** What blkid exports is read back: the last TYPE and the last PTTYPE. */
  lemma ExportIsReadBack(tags: seq<Tag>)
    requires forall t :: t in tags ==> Clean(t)
    ensures ReadLines(Split(Export(tags), '\n')) == Some(Types(Last(tags, "TYPE"), Last(tags, "PTTYPE")))
  {
    ExportSplitsIntoTags(tags);
    ReadsTags(tags);
    var lines := seq(|tags|, i requires 0 <= i < |tags| => Line(tags[i]));
    assert (lines + [""])[..|tags|] == lines;
  }

  // ---- Disks ----

  /** What blkid can tell about a disk: its file system type and its partition table type. */
  datatype Disk = Disk(fs: string, pt: string)

  predicate Blank(d: Disk) {
    d.fs == "" && d.pt == ""
  }

  datatype Fsck = NoErrors | NotFound | Exit(status: int) | OtherError

  /** Everything the system decides during one call: what fsck says, whether a mount works,
      whether blkid works and what else it prints, whether mkfs works and what it leaves when not. */
  datatype Env = Env(fsck: Fsck, mount1: bool, probe: bool, other: seq<Tag>, mkfs: bool, wreck: Disk, mount2: bool)

  predicate Sane(env: Env) {
    forall t :: t in env.other ==> Clean(t) && t.key != "TYPE" && t.key != "PTTYPE"
  }

  predicate CleanDisk(d: Disk) {
    Clean(Tag("TYPE", d.fs)) && Clean(Tag("PTTYPE", d.pt))
  }

  /** The tags that a faithful blkid reports; for a blank disk it ends with exit code 2 instead. */
  function Tags(d: Disk, env: Env): seq<Tag> {
    env.other + Present("TYPE", d.fs) + Present("PTTYPE", d.pt)
  }

  function Present(key: string, value: string): seq<Tag> {
    if value == "" then [] else [Tag(key, value)]
  }

  datatype Probe = ProbeError | Found(format: string)

  /** What `GetDiskFormat` answers. */
  function DiskFormat(d: Disk, env: Env): Probe {
    if !env.probe then ProbeError
    else if Blank(d) then Found("")
    else
      match ReadLines(Split(Export(Tags(d, env)), '\n'))
      case None => ProbeError
      case Some(t) => Found(if t.pt != "" then PARTITIONED else t.fs)
  }

  lemma LastOfPresent(a: seq<Tag>, key: string, value: string, wanted: string)
    ensures Last(a + Present(key, value), wanted) == if key == wanted && value != "" then value else Last(a, wanted)
  {
    if value == "" {
      assert a + [] == a;
    } else {
      var b := a + [Tag(key, value)];
      assert b[|b| - 1] == Tag(key, value) && b[..|b| - 1] == a;
    }
  }

  lemma {:induction false} LastOfOthers(tags: seq<Tag>, key: string)
    requires forall t :: t in tags ==> t.key != key
    ensures Last(tags, key) == ""
    decreases |tags|
  {
    if tags == [] {
    } else {
      var n := |tags| - 1;
      assert tags[n] in tags;
      LastOfOthers(tags[..n], key);
    }
  }

  lemma TagsTellTheDisk(d: Disk, env: Env)
    requires Sane(env) && CleanDisk(d)
    ensures Last(Tags(d, env), "TYPE") == d.fs && Last(Tags(d, env), "PTTYPE") == d.pt
    ensures forall t :: t in Tags(d, env) ==> Clean(t)
  {
    hide Last;
    var a := env.other + Present("TYPE", d.fs);
    LastOfOthers(env.other, "TYPE");
    LastOfOthers(env.other, "PTTYPE");
    LastOfPresent(env.other, "TYPE", d.fs, "TYPE");
    LastOfPresent(env.other, "TYPE", d.fs, "PTTYPE");
    LastOfPresent(a, "PTTYPE", d.pt, "TYPE");
    LastOfPresent(a, "PTTYPE", d.pt, "PTTYPE");
  }

  /** A faithful blkid makes `GetDiskFormat` answer "" exactly for a disk with neither TYPE nor
      PTTYPE; a disk with a partition table is never reported by its file system. */
  lemma FormatIsFaithful(d: Disk, env: Env)
    requires Sane(env) && CleanDisk(d)
    ensures DiskFormat(d, env) == if !env.probe then ProbeError else Found(if d.pt != "" then PARTITIONED else d.fs)
    ensures DiskFormat(d, env) == Found("") <==> env.probe && Blank(d)
  {
    TagsTellTheDisk(d, env);
    ExportIsReadBack(Tags(d, env));
  }

  method GetDiskFormat(d: Disk, env: Env) returns (r: Probe)
    ensures r == DiskFormat(d, env)
    ensures Sane(env) && CleanDisk(d) ==> (r == Found("") <==> env.probe && Blank(d))
  {
    if Sane(env) && CleanDisk(d) {
      FormatIsFaithful(d, env);
    }
    if !env.probe {
      return ProbeError;
    }
    if Blank(d) {
      return Found("");
    }
    var types := ParseOutput(Export(Tags(d, env)));
    if types.None? {
      return ProbeError;
    }
    if |types.value.pt| > 0 {
      return Found(PARTITIONED);
    }
    return Found(types.value.fs);
  }

  // ---- formatAndMount ----

  datatype Effect =
    | RunFsck
    | Mount(fstype: string, options: seq<string>, worked: bool)
    | RunMkfs(fstype: string, force: bool, before: Disk, worked: bool)

  datatype Outcome = Outcome(disk: Disk, effects: seq<Effect>, mounted: bool)

  function Chosen(fstype: string): string {
    if fstype == "" then "ext4" else fstype
  }

  function FormatAndMount(d: Disk, fstype: string, options: seq<string>, env: Env): Outcome {
    var readOnly := "ro" in options;
    var opts := options + ["defaults"];
    var check := if readOnly then [] else [RunFsck];
    if !readOnly && env.fsck == Exit(4) then Outcome(d, check, false)
    else
      var first := check + [Mount(fstype, opts, env.mount1)];
      if env.mount1 then Outcome(d, first, true)
      else if DiskFormat(d, env) != Found("") || readOnly then Outcome(d, first, false)
      else
        var fs := Chosen(fstype);
        var formatted := first + [RunMkfs(fs, fs == "ext4" || fs == "ext3", d, env.mkfs)];
        if !env.mkfs then Outcome(env.wreck, formatted, false)
        else Outcome(Disk(fs, ""), formatted + [Mount(fs, opts, env.mount2)], env.mount2)
  }

  method FormatAndMountDisk(d: Disk, fstype: string, options: seq<string>, env: Env)
    returns (disk: Disk, effects: seq<Effect>, mounted: bool)
    ensures Outcome(disk, effects, mounted) == FormatAndMount(d, fstype, options, env)
  {
    hide DiskFormat, Sane, CleanDisk;
    disk, effects, mounted := d, [], false;
    var readOnly := false;
    for i := 0 to |options|
      invariant readOnly <==> "ro" in options[..i]
    {
      assert options[..i + 1] == options[..i] + [options[i]];
      if options[i] == "ro" {
        readOnly := true;
        assert options[i] in options;
        break;
      }
    }
    assert options[..|options|] == options;
    var opts := options + ["defaults"];
    if !readOnly {
      effects := effects + [RunFsck];
      match env.fsck
      case Exit(status) =>
        if status == 4 {
          return;
        }
      case _ =>
    }
    effects := effects + [Mount(fstype, opts, env.mount1)];
    if env.mount1 {
      mounted := true;
      return;
    }
    var existingFormat := GetDiskFormat(d, env);
    if existingFormat.ProbeError? {
      return;
    }
    if existingFormat.format == "" {
      if readOnly {
        return;
      }
      var fs := fstype;
      if |fs| == 0 {
        fs := "ext4";
      }
      effects := effects + [RunMkfs(fs, fs == "ext4" || fs == "ext3", d, env.mkfs)];
      if env.mkfs {
        disk := Disk(fs, "");
        effects := effects + [Mount(fs, opts, env.mount2)];
        mounted := env.mount2;
        return;
      }
      disk := env.wreck;
      return;
    }
  }

  /** mkfs runs exactly when fsck did not give up, mounting failed, the probe worked, the disk is
      blank and the mount is not read-only. */
  lemma FormatsExactlyWhen(d: Disk, fstype: string, options: seq<string>, env: Env)
    requires Sane(env) && CleanDisk(d)
    ensures (exists e :: e in FormatAndMount(d, fstype, options, env).effects && e.RunMkfs?) <==>
            "ro" !in options && env.fsck != Exit(4) && !env.mount1 && env.probe && Blank(d)
  {
    FormatIsFaithful(d, env);
    hide DiskFormat;
    var o := FormatAndMount(d, fstype, options, env);
    if "ro" !in options && env.fsck != Exit(4) && !env.mount1 && env.probe && Blank(d) {
      var fs := Chosen(fstype);
      assert o.effects[2] == RunMkfs(fs, fs == "ext4" || fs == "ext3", d, env.mkfs);
      assert o.effects[2] in o.effects;
    }
  }

  /** When formatAndMount formats: the mount is not read-only, fsck did not give up, mounting failed
      and the probe says that the disk is blank. */
  predicate Formats(d: Disk, options: seq<string>, env: Env) {
    "ro" !in options && env.fsck != Exit(4) && !env.mount1 && env.probe && Blank(d)
  }

  /** What formatAndMount does, effect by effect, and what comes of it. */
  lemma EffectsMean(d: Disk, fstype: string, options: seq<string>, env: Env)
    requires Sane(env) && CleanDisk(d)
    ensures var o := FormatAndMount(d, fstype, options, env);
            var wanted := if fstype == "" then "ext4" else fstype;
            && (forall i :: 0 <= i < |o.effects| ==>
                  match o.effects[i]
                  case RunFsck => i == 0
                  case RunMkfs(fs, force, before, worked) =>
                    && fs == wanted && (force <==> wanted == "ext4" || wanted == "ext3")
                    && before == d && worked == env.mkfs && i > 0 && o.effects[i - 1].Mount?
                  case Mount(fs, opts, worked) =>
                    && opts == options + ["defaults"]
                    && if i > 0 && o.effects[i - 1].RunMkfs? then fs == wanted && worked == env.mount2
                       else fs == fstype && worked == env.mount1)
            && |o.effects| == (if "ro" in options then 0 else 1)
                              + (if "ro" in options || env.fsck != Exit(4) then 1 else 0)
                              + (if !Formats(d, options, env) then 0 else if env.mkfs then 2 else 1)
            && (RunFsck in o.effects <==> "ro" !in options)
            && ((exists e :: e in o.effects && e.Mount?) <==> "ro" in options || env.fsck != Exit(4))
            && ((exists e :: e in o.effects && e.RunMkfs?) <==> Formats(d, options, env))
            && (o.mounted <==> && ("ro" in options || env.fsck != Exit(4))
                               && (env.mount1 || (Formats(d, options, env) && env.mkfs && env.mount2)))
            && o.disk == if !Formats(d, options, env) then d else if env.mkfs then Disk(wanted, "") else env.wreck
  {
    FormatIsFaithful(d, env);
    FormatsExactlyWhen(d, fstype, options, env);
    hide DiskFormat, Sane, CleanDisk;
    var o := FormatAndMount(d, fstype, options, env);
    if "ro" !in options {
      assert o.effects[0] == RunFsck;
    } else {
      assert o.effects[0].Mount?;
    }
    if "ro" !in options && env.fsck != Exit(4) {
      assert o.effects[1].Mount?;
    }
  }

  // ---- Staging and unstaging a volume ----

  /** The state of one volume on a node: its disk, the target paths at which something is mounted, and
      what was done to the disk. The calls for a volume are serialised by its mutex. */
  datatype Volume = Volume(disk: Disk, mounted: set<string>, log: seq<Effect>)

  /** `statFails`: the mount point check fails; `device`: createDevice works; `unmount`: unmounting works. */
  datatype Call =
    | Stage(path: string, fstype: string, env: Env, statFails: bool, device: bool)
    | Unstage(path: string, unmount: bool)

  predicate SaneCall(c: Call) {
    c.Stage? ==> Sane(c.env) && CleanDisk(c.env.wreck) && (c.env.mkfs ==> Clean(Tag("TYPE", Chosen(c.fstype))))
  }

  function Apply(v: Volume, c: Call): Volume {
    match c
    case Stage(path, fstype, env, statFails, device) =>
      if path == "" || statFails || path in v.mounted || !device then v
      else
        var o := FormatAndMount(v.disk, fstype, [], env);
        Volume(o.disk, if o.mounted then v.mounted + {path} else v.mounted, v.log + o.effects)
    case Unstage(path, unmount) => if path != "" && unmount then v.(mounted := v.mounted - {path}) else v
  }

  function Run(v: Volume, cs: seq<Call>): Volume
    decreases |cs|
  {
    if cs == [] then v else Run(Apply(v, cs[0]), cs[1..])
  }

  /** The positions of successful mkfs runs. */
  predicate FormatsAt(log: seq<Effect>, i: nat) {
    i < |log| && log[i].RunMkfs? && log[i].worked
  }

  /** mkfs only ever ran on blank disks, and once it worked the disk is not blank and it does not run again. */
  ghost predicate Safe(v: Volume) {
    && CleanDisk(v.disk)
    && (forall i :: 0 <= i < |v.log| && v.log[i].RunMkfs? ==> Blank(v.log[i].before))
    && (forall i: nat, j: nat :: FormatsAt(v.log, i) && i < j < |v.log| ==> !v.log[j].RunMkfs?)
    && ((exists i: nat :: FormatsAt(v.log, i)) ==> !Blank(v.disk))
  }

  lemma FormatEffects(d: Disk, fstype: string, env: Env)
    requires Sane(env) && CleanDisk(d)
    ensures var o := FormatAndMount(d, fstype, [], env);
            && (!Blank(d) ==> o.disk == d && forall i :: 0 <= i < |o.effects| ==> !o.effects[i].RunMkfs?)
            && (forall i :: 0 <= i < |o.effects| && o.effects[i].RunMkfs? ==> o.effects[i].before == d && Blank(d))
            && (forall i, j :: 0 <= i < j < |o.effects| && o.effects[i].RunMkfs? ==> !o.effects[j].RunMkfs?)
            && (forall i :: 0 <= i < |o.effects| && o.effects[i].RunMkfs? && o.effects[i].worked ==> !Blank(o.disk))
  {
    FormatIsFaithful(d, env);
    hide DiskFormat;
  }

  lemma ApplyKeepsSafe(v: Volume, c: Call)
    requires Safe(v) && SaneCall(c)
    ensures Safe(Apply(v, c))
  {
    if c.Stage? && Apply(v, c) != v {
      var o := FormatAndMount(v.disk, c.fstype, [], c.env);
      var v' := Apply(v, c);
      FormatEffects(v.disk, c.fstype, c.env);
      assert CleanDisk(v'.disk);
      hide FormatAndMount;
      forall i | 0 <= i < |v'.log| && v'.log[i].RunMkfs? ensures Blank(v'.log[i].before) {
        if i >= |v.log| {
          assert v'.log[i] == o.effects[i - |v.log|];
        }
      }
      forall i: nat, j: nat | FormatsAt(v'.log, i) && i < j < |v'.log| ensures !v'.log[j].RunMkfs? {
        if i < |v.log| {
          assert FormatsAt(v.log, i);
          if j >= |v.log| {
            assert v'.log[j] == o.effects[j - |v.log|];
          }
        } else {
          assert v'.log[i] == o.effects[i - |v.log|] && v'.log[j] == o.effects[j - |v.log|];
        }
      }
      if i: nat :| FormatsAt(v'.log, i) {
        if i < |v.log| {
          assert FormatsAt(v.log, i);
        } else {
          assert v'.log[i] == o.effects[i - |v.log|];
        }
      }
    }
  }

  lemma {:induction false} RunKeepsSafe(v: Volume, cs: seq<Call>)
    requires Safe(v) && forall c :: c in cs ==> SaneCall(c)
    ensures Safe(Run(v, cs))
    decreases |cs|
  {
    if cs == [] {
    } else {
      ApplyKeepsSafe(v, cs[0]);
      assert forall c :: c in cs[1..] ==> c in cs;
      RunKeepsSafe(Apply(v, cs[0]), cs[1..]);
    }
  }

  /** Staging at a path where the volume is staged does nothing, whatever else the request says. */
  lemma StageIsIdempotent(v: Volume, c: Call, again: Call)
    requires c.Stage? && again.Stage? && again.path == c.path && c.path in Apply(v, c).mounted
    ensures Apply(Apply(v, c), again) == Apply(v, c)
  {
  }

  /** Over every run of stage and unstage calls for a volume, at any target paths, mkfs runs only on a disk without TYPE
      and PTTYPE, and it succeeds at most once. */
  lemma FormatsAtMostOnce(d: Disk, mounted: set<string>, cs: seq<Call>, i: nat, j: nat)
    requires CleanDisk(d) && forall c :: c in cs ==> SaneCall(c)
    ensures var log := Run(Volume(d, mounted, []), cs).log;
            && (i < |log| && log[i].RunMkfs? ==> Blank(log[i].before))
            && (FormatsAt(log, i) && FormatsAt(log, j) ==> i == j)
  {
    RunKeepsSafe(Volume(d, mounted, []), cs);
  }

  /** A disk that carries a file system or a partition table is never changed by any run. */
  lemma {:induction false} FormattedDiskSurvives(v: Volume, cs: seq<Call>)
    requires CleanDisk(v.disk) && !Blank(v.disk) && forall c :: c in cs ==> SaneCall(c)
    ensures Run(v, cs).disk == v.disk
    decreases |cs|
  {
    if cs == [] {
    } else {
      if cs[0].Stage? {
        assert SaneCall(cs[0]);
        FormatEffects(v.disk, cs[0].fstype, cs[0].env);
      }
      assert forall c :: c in cs[1..] ==> c in cs;
      FormattedDiskSurvives(Apply(v, cs[0]), cs[1..]);
    }
  }

  /** When a target path has the volume mounted after a stage call: it had before, or the request is
      in order, there is a device, and mounting works in the end. */
  lemma StageMountsExactly(v: Volume, c: Call)
    requires c.Stage? && Sane(c.env) && CleanDisk(v.disk)
    ensures c.path in Apply(v, c).mounted <==>
            || c.path in v.mounted
            || (&& c.path != "" && !c.statFails && c.device && c.env.fsck != Exit(4)
                && (c.env.mount1 || (c.env.probe && Blank(v.disk) && c.env.mkfs && c.env.mount2)))
    ensures Apply(v, c).mounted == v.mounted || Apply(v, c).mounted == v.mounted + {c.path}
  {
    EffectsMean(v.disk, c.fstype, [], c.env);
    hide FormatAndMount, DiskFormat;
  }

  /** Unstaging frees the path and touches neither the disk nor other paths, so that a volume can be
      staged there again: one with a file system as soon as fsck and mount let it. */
  lemma StagesAgainAfterUnstage(v: Volume, path: string, c: Call)
    requires path != "" && c.Stage? && c.path == path && !c.statFails && c.device
    requires Sane(c.env) && CleanDisk(v.disk) && !Blank(v.disk)
    ensures var v1 := Apply(v, Unstage(path, true));
            && v1 == v.(mounted := v.mounted - {path})
            && (path in Apply(v1, c).mounted <==> c.env.fsck != Exit(4) && c.env.mount1)
            && Apply(v1, c).disk == v.disk
  {
    var v1 := Apply(v, Unstage(path, true));
    StageMountsExactly(v1, c);
    FormatEffects(v1.disk, c.fstype, c.env);
    hide FormatAndMount;
  }

  // ---- The handlers ----

  /** The node's view of one volume. */
  class Node {
    var disk: Disk
    var mounted: set<string>
    ghost var log: seq<Effect>

    constructor (d: Disk)
      ensures State() == Volume(d, {}, [])
    {
      disk, mounted, log := d, {}, [];
    }

    ghost function State(): Volume
      reads this
    {
      Volume(disk, mounted, log)
    }

    /** NodeStageVolume succeeds exactly when the request is complete, the path can be checked and the
        volume is mounted there afterwards. */
    method NodeStageVolume(volumeID: string, capability: bool, path: string, fstype: string, env: Env,
                           statFails: bool, device: bool)
      returns (ok: bool)
      modifies this
      ensures ok <==> path != "" && volumeID != "" && capability && !statFails && path in mounted
      ensures State() == if volumeID == "" || !capability then old(State())
                         else Apply(old(State()), Stage(path, fstype, env, statFails, device))
    {
      if path == "" || volumeID == "" || !capability {
        return false;
      }
      if statFails {
        return false;
      }
      if path in mounted {
        return true;
      }
      if !device {
        return false;
      }
      var newDisk, effects, worked := FormatAndMountDisk(disk, fstype, [], env);
      disk, log := newDisk, log + effects;
      if worked {
        mounted := mounted + {path};
      }
      return worked;
    }

    /** NodeUnstageVolume unmounts the path; it also fails when the device cannot be deleted then. */
    method NodeUnstageVolume(volumeID: string, path: string, unmount: bool, deleted: bool) returns (ok: bool)
      modifies this
      ensures ok <==> path != "" && volumeID != "" && unmount && deleted
      ensures State() == if volumeID == "" then old(State()) else Apply(old(State()), Unstage(path, unmount))
    {
      if path == "" || volumeID == "" {
        return false;
      }
      if !unmount {
        return false;
      }
      mounted := mounted - {path};
      return deleted;
    }
  }
}
