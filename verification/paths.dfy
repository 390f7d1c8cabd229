/**
 * Where the trait puts a new attachment: the generated directory
 * (`generateAttachmentPath`) and the destination of a pre-signed upload
 * (`moveSignedFileAttachment`).
 */
module Paths {
  import opened Text
  import opened Settings

  /**
   * The random characters one `generateAttachmentPath` call draws: `pick(i)`
   * is the character of the md5 token chosen by `random_int` in loop round i + 1.
   */
  type Picks = nat -> char

  /** The first `n` picks, each followed by a '/', as the loop builds them. */
  function Dirs(pick: Picks, n: nat): (r: string)
    ensures |r| == 2 * n
    ensures forall j :: 0 <= j < |r| ==> r[j] == if j % 2 == 0 then pick(j / 2) else '/'
  {
    if n == 0 then "" else Dirs(pick, n - 1) + [pick(n - 1), '/']
  }

  /** The directory `generateAttachmentPath` returns for the given picks. */
  function AttachmentPath(cfg: Config, pick: Picks): (r: string)
    ensures r == [] || (r[0] != '/' && r[|r| - 1] != '/')
    ensures !cfg.obfuscation && Trim(cfg.baseFolder) == "" ==> r == ""
  {
    var dirs := if cfg.obfuscation then Dirs(pick, cfg.levels) else "";
    var folder := Trim(cfg.baseFolder);
    Trim(if folder != "" then folder + "/" + dirs else dirs)
  }

  /** `generateAttachmentPath()` */
  method GeneratePath(cfg: Config, pick: Picks) returns (path: string)
    ensures path == AttachmentPath(cfg, pick)
  {
    path := "";
    if cfg.obfuscation {
      for i := 1 to cfg.levels + 1
        invariant path == Dirs(pick, i - 1)
      {
        path := path + [pick(i - 1), '/'];
      }
    }
    var folder := Trim(cfg.baseFolder);
    if folder != "" {
      path := folder + "/" + path;
    }
    path := Trim(path);
  }

  /** Reference layout: `n` one-character segments joined by '/'. */
  function Segments(pick: Picks, n: nat): (r: string)
    ensures |r| == if n == 0 then 0 else 2 * n - 1
    ensures forall j :: 0 <= j < |r| ==> r[j] == if j % 2 == 0 then pick(j / 2) else '/'
  {
    if n == 0 then "" else if n == 1 then [pick(0)] else Segments(pick, n - 1) + ['/', pick(n - 1)]
  }

  lemma {:induction false} DirsAreSegments(pick: Picks, n: nat)
    requires n > 0
    ensures Dirs(pick, n) == Segments(pick, n) + "/"
  {
    if n > 1 {
      DirsAreSegments(pick, n - 1);
    }
  }

  /** The base folder, then '/', then the segments, leaving out whichever part is empty. */
  function Joined(folder: string, segs: string): string {
    if folder == "" then segs else if segs == "" then folder else folder + "/" + segs
  }

  /** Under a hex-digit pick, the joined segments neither start nor end with '/'. */
  lemma SegmentsEnds(pick: Picks, n: nat)
    requires n > 0
    requires forall i: nat :: i < n ==> IsHexDigit(pick(i))
    ensures var segs := Segments(pick, n); segs[0] != '/' && segs[|segs| - 1] != '/'
  {
    var segs := Segments(pick, n);
    assert segs[0] == pick(0);
    assert segs[|segs| - 1] == pick((2 * n - 2) / 2);
    assert IsHexDigit(pick(0)) && IsHexDigit(pick(n - 1));
  }

  /** Trimming `folder/dirs` with trimmed parts gives the two parts joined. */
  lemma TrimJoined(folder: string, dirs: string, segs: string)
    requires folder == [] || (folder[0] != '/' && folder[|folder| - 1] != '/')
    requires (dirs == [] && segs == []) || (segs != [] && segs[0] != '/' && segs[|segs| - 1] != '/' && dirs == segs + "/")
    ensures Trim(if folder != "" then folder + "/" + dirs else dirs) == Joined(folder, segs)
  {
    if segs != [] {
      if folder == "" {
        TrimOneTrailing(segs);
      } else {
        assert folder + "/" + dirs == (folder + "/" + segs) + "/";
        TrimOneTrailing(folder + "/" + segs);
      }
    } else if folder != "" {
      assert folder + "/" + dirs == folder + "/";
      TrimOneTrailing(folder);
    }
  }

  /**
   * Given that every pick is a character of an md5 digest, the generated
   * directory is the trimmed base folder joined to `levels` one-character
   * segments (none when obfuscation is off).
   */
  lemma AttachmentPathLayout(cfg: Config, pick: Picks)
    requires forall i: nat :: i < cfg.levels ==> IsHexDigit(pick(i))
    ensures AttachmentPath(cfg, pick)
         == Joined(Trim(cfg.baseFolder), if cfg.obfuscation then Segments(pick, cfg.levels) else "")
  {
    if cfg.obfuscation && cfg.levels > 0 {
      DirsAreSegments(pick, cfg.levels);
      SegmentsEnds(pick, cfg.levels);
      TrimJoined(Trim(cfg.baseFolder), Dirs(pick, cfg.levels), Segments(pick, cfg.levels));
    } else {
      TrimJoined(Trim(cfg.baseFolder), "", "");
    }
  }

  /**
   * The shape of a generated directory: it never starts or ends with '/';
   * with obfuscation on and no base folder it is exactly `levels` hex-digit
   * segments joined by '/'; a non-empty trimmed base folder is its prefix;
   * with both off it is empty.
   */
  lemma AttachmentPathShape(cfg: Config, pick: Picks)
    requires forall i: nat :: i < cfg.levels ==> IsHexDigit(pick(i))
    ensures var r, folder := AttachmentPath(cfg, pick), Trim(cfg.baseFolder);
      && (r == [] || (r[0] != '/' && r[|r| - 1] != '/'))
      && (cfg.obfuscation && folder == "" ==>
            && |r| == (if cfg.levels == 0 then 0 else 2 * cfg.levels - 1)
            && forall j :: 0 <= j < |r| ==> if j % 2 == 0 then IsHexDigit(r[j]) else r[j] == '/')
      && (folder != "" ==> |folder| <= |r| && r[..|folder|] == folder)
      && (!cfg.obfuscation && folder == "" ==> r == "")
  {
    AttachmentPathLayout(cfg, pick);
    JoinedShape(cfg.levels, pick, Trim(cfg.baseFolder), if cfg.obfuscation then Segments(pick, cfg.levels) else "");
  }

  /**
   * Under the package's default settings (no base folder, obfuscation on,
   * three levels) a generated directory is `x/y/z`, three hex digits.
   */
  lemma DefaultPathShape(pick: Picks)
    requires forall i: nat :: i < 3 ==> IsHexDigit(pick(i))
    ensures var r := AttachmentPath(Default, pick);
      |r| == 5 && IsHexDigit(r[0]) && r[1] == '/' && IsHexDigit(r[2]) && r[3] == '/' && IsHexDigit(r[4])
  {
    AttachmentPathShape(Default, pick);
  }

  lemma JoinedShape(n: nat, pick: Picks, folder: string, segs: string)
    requires forall i: nat :: i < n ==> IsHexDigit(pick(i))
    requires segs == [] || segs == Segments(pick, n)
    ensures var r := Joined(folder, segs);
      && (segs == Segments(pick, n) && folder == "" ==>
            && |r| == (if n == 0 then 0 else 2 * n - 1)
            && forall j :: 0 <= j < |r| ==> if j % 2 == 0 then IsHexDigit(r[j]) else r[j] == '/')
      && (folder != "" ==> |folder| <= |r| && r[..|folder|] == folder)
      && (segs == [] && folder == "" ==> r == "")
  {
    var r := Joined(folder, segs);
    if segs == Segments(pick, n) && folder == "" {
      forall j | 0 <= j < |r| && j % 2 == 0
        ensures IsHexDigit(r[j])
      {
        assert r[j] == pick(j / 2);
      }
    }
    if folder != "" && segs != "" {
      assert r == folder + ("/" + segs);
    }
  }

  /** The path `moveSignedFileAttachment` moves a pre-signed upload at `tempPath` to. */
  function SignedTarget(cfg: Config, destination: string, tempPath: string, name: string): (r: string)
    ensures |Extension(name)| < |r| && r[|r| - |Extension(name)| - 1] == '.'
    ensures r[|r| - |Extension(name)|..] == Extension(name)
    ensures Trim(cfg.tempFolder) + "/" == destination + "/" ==> r == tempPath + "." + Extension(name)
  {
    Replace(tempPath, Trim(cfg.tempFolder) + "/", destination + "/") + "." + Extension(name)
  }

  /**
   * For a temporary path `<temp folder>/<id>`, as the signed-URL controller
   * hands out, the upload goes to `<destination>/<id>.<extension of name>`.
   */
  lemma SignedTargetOfTempPath(cfg: Config, destination: string, id: string, name: string)
    requires '/' !in id
    ensures SignedTarget(cfg, destination, Trim(cfg.tempFolder) + "/" + id, name)
         == destination + "/" + id + "." + Extension(name)
  {
    var search, replace := Trim(cfg.tempFolder) + "/", destination + "/";
    ReplaceLeading(search, id, replace);
    ReplaceUntouched(id, search, replace);
  }

  /** The destination of a pre-signed upload is never its temporary path. */
  lemma SignedTargetLeavesTemp(cfg: Config, destination: string, id: string, name: string)
    requires '/' !in id
    ensures SignedTarget(cfg, destination, Trim(cfg.tempFolder) + "/" + id, name)
         != Trim(cfg.tempFolder) + "/" + id
  {
    SignedTargetOfTempPath(cfg, destination, id, name);
    RenamedLeafDiffers(Trim(cfg.tempFolder), destination, id, Extension(name));
  }

  lemma RenamedLeafDiffers(temp: string, destination: string, id: string, ext: string)
    requires '/' !in id && '/' !in ext
    ensures destination + "/" + id + "." + ext != temp + "/" + id
  {
    assert '/' !in id + "." + ext;
    AfterLastDistinct(temp + "/", id, destination + "/", id + "." + ext);
    assert destination + "/" + id + "." + ext == (destination + "/") + (id + "." + ext);
  }

  /** Two paths whose last segments differ in length are different paths. */
  lemma AfterLastDistinct(dir1: string, leaf1: string, dir2: string, leaf2: string)
    requires dir1 != [] && dir1[|dir1| - 1] == '/' && dir2 != [] && dir2[|dir2| - 1] == '/'
    requires '/' !in leaf1 && '/' !in leaf2 && |leaf1| != |leaf2|
    ensures dir1 + leaf1 != dir2 + leaf2
  {
    AfterLastAppend(dir1, leaf1, '/');
    AfterLastAppend(dir2, leaf2, '/');
  }
}
