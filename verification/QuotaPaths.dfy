/** Quota directory names: pkg/csi-plugin/hostpath/quota-manager/common.go.

    Paths are clean, absolute and not the root, so `path.Clean` is the identity on them and
    `path.Join(mountPoint, name)` puts one slash between its arguments. */
module QuotaPaths {
  import opened Results
  import opened VolumeIdCodec

  type VolumeId = string
  type Path = string

  const QUOTA_DIR_PREFIX := "k8squota"

  function DirName(vol: VolumeId): string {
    QUOTA_DIR_PREFIX + "_" + vol
  }

  function QuotaPath(mountPoint: Path, vol: VolumeId): Path {
    mountPoint + "/" + DirName(vol)
  }

  /** The whole path, byte by byte: the mount point, a slash, "k8squota_", the volume. */
  lemma QuotaPathIs(mountPoint: Path, vol: VolumeId)
    ensures var p := QuotaPath(mountPoint, vol);
            && |p| == |mountPoint| + 10 + |vol|
            && p[..|mountPoint|] == mountPoint
            && p[|mountPoint|..|mountPoint| + 10] == "/k8squota_"
            && p[|mountPoint| + 10..] == vol
  {
    assert QuotaPath(mountPoint, vol) == mountPoint + "/k8squota_" + vol;
  }

  ghost predicate OccursAt(s: string, sub: string, i: int) {
    0 <= i <= |s| - |sub| && s[i..i + |sub|] == sub
  }

  /** `strings.Index`: the first occurrence of `sub` at or after `from`, or -1. */
  function Index(s: string, sub: string, from: nat): (i: int)
    requires from <= |s|
    ensures i == -1 || (from <= i && OccursAt(s, sub, i))
    ensures forall j :: from <= j && (i == -1 || j < i) ==> !OccursAt(s, sub, j)
    decreases |s| - from
  {
    if from + |sub| > |s| then -1
    else if s[from..from + |sub|] == sub then from
    else if from == |s| then -1
    else Index(s, sub, from + 1)
  }

  datatype Parsed = Volume(vol: VolumeId) | OutOfRange

  /** A path that does not hold the prefix after its first byte parses to the empty volume
      id with no error; one that ends in the bare prefix is sliced out of range. */
  function ParseVolume(path: Path): Parsed {
    var pos := Index(path, QUOTA_DIR_PREFIX, 0);
    if pos <= 0 then Volume("")
    else if pos + 9 > |path| then OutOfRange
    else Volume(path[pos + 9..])
  }

  predicate CleanMount(mountPoint: Path) {
    && mountPoint != ""
    && Index(mountPoint, QUOTA_DIR_PREFIX, 0) == -1
  }

  lemma FirstPrefixInQuotaPath(mountPoint: Path, vol: VolumeId)
    requires CleanMount(mountPoint)
    ensures Index(QuotaPath(mountPoint, vol), QUOTA_DIR_PREFIX, 0) == |mountPoint| + 1
  {
    var p := QuotaPath(mountPoint, vol);
    var m := |mountPoint|;
    assert p[m] == '/';
    assert p[m + 1..m + 9] == QUOTA_DIR_PREFIX;
    assert OccursAt(p, QUOTA_DIR_PREFIX, m + 1);
    forall j | 0 <= j <= m ensures !OccursAt(p, QUOTA_DIR_PREFIX, j) {
      if j + 8 <= m {
        assert p[j..j + 8] == mountPoint[j..j + 8];
        assert !OccursAt(mountPoint, QUOTA_DIR_PREFIX, j);
      } else if j + 8 <= |p| {
        assert p[j..j + 8][m - j] == '/';
        PrefixHasNoSlash(m - j);
      }
    }
  }

  lemma PrefixHasNoSlash(k: nat)
    requires k < 8
    ensures |QUOTA_DIR_PREFIX| == 8 && QUOTA_DIR_PREFIX[k] != '/'
  {
  }

  /** A directory name written for a volume is read back as that volume. */
  lemma ParseQuotaPath(mountPoint: Path, vol: VolumeId)
    requires CleanMount(mountPoint)
    ensures ParseVolume(QuotaPath(mountPoint, vol)) == Volume(vol)
  {
    FirstPrefixInQuotaPath(mountPoint, vol);
    assert QuotaPath(mountPoint, vol)[|mountPoint| + 10..] == vol;
  }

  /** No two volumes, and no two disks, share a quota path. */
  lemma QuotaPathInjective(m1: Path, v1: VolumeId, m2: Path, v2: VolumeId)
    requires CleanMount(m1) && CleanMount(m2)
    requires QuotaPath(m1, v1) == QuotaPath(m2, v2)
    ensures m1 == m2 && v1 == v2
  {
    ParseQuotaPath(m1, v1);
    ParseQuotaPath(m2, v2);
    assert m1 == QuotaPath(m1, v1)[..|m1|];
    assert m2 == QuotaPath(m2, v2)[..|m2|];
    assert |QuotaPath(m1, v1)| == |m1| + 10 + |v1|;
    assert |QuotaPath(m2, v2)| == |m2| + 10 + |v2|;
  }

  /** The sub-directories that `GetSubDirs(mountPoint)` lists: one component below it. */
  predicate IsSubDir(path: Path, mountPoint: Path) {
    && |mountPoint| + 1 < |path|
    && path[..|mountPoint|] == mountPoint
    && path[|mountPoint|] == '/'
    && '/' !in path[|mountPoint| + 1..]
  }

  lemma QuotaPathSubDir(mountPoint: Path, vol: VolumeId, other: Path)
    requires '/' !in vol
    ensures IsSubDir(QuotaPath(mountPoint, vol), other) <==> other == mountPoint
  {
    var p := QuotaPath(mountPoint, vol);
    var m := |mountPoint|;
    assert p[m] == '/' && p[..m] == mountPoint;
    assert p[m + 1..] == DirName(vol);
    if IsSubDir(p, other) {
      var k := |other|;
      assert forall i :: k < i < |p| ==> p[i] == p[k + 1..][i - k - 1];
      assert forall i :: m < i < |p| ==> p[i] == p[m + 1..][i - m - 1];
      assert k == m;
    }
  }

  /** An identity survives its whole journey: composed into a volume id, put into a
      directory name, listed under its mount point after a restart, parsed and decomposed. */
  lemma IdentitySurvivesRestart(id: Identity, mountPoint: Path)
    requires |id.volumeName| <= 113 && '/' !in id.volumeName && CleanMount(mountPoint)
    ensures Compose(id).Ok?
    ensures var p := QuotaPath(mountPoint, Compose(id).value);
            && IsSubDir(p, mountPoint)
            && ParseVolume(p).Volume?
            && Decompose(ParseVolume(p).vol) == Ok(id)
  {
    RoundTrip(id);
    ComposeHasNoSlash(id);
    ParseQuotaPath(mountPoint, Compose(id).value);
    QuotaPathSubDir(mountPoint, Compose(id).value, mountPoint);
  }

  /** Exactly the paths on which the parser slices out of range: the prefix, not at the
      start, is the last thing in the path. */
  lemma ParseOutOfRange(path: Path)
    ensures ParseVolume(path).OutOfRange?
            <==> |path| > 8 && Index(path, QUOTA_DIR_PREFIX, 0) == |path| - 8
  {
  }

  /** And exactly the paths that are no quota directories, yet are read without an error as the
      volume with the empty id; the directory of that id is the one other path that is. */
  lemma ParseNoError(path: Path)
    ensures ParseVolume(path) == Volume("")
            <==> Index(path, QUOTA_DIR_PREFIX, 0) <= 0 || Index(path, QUOTA_DIR_PREFIX, 0) == |path| - 9
  {
  }
}
