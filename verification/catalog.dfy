/**
  The size catalog: the fixed progression of payload sizes, each with the
  byte count posted when uploading and the file fetched when downloading, and
  the resolution of a requested size limit to a prefix of the progression.
 */
module Catalog {

  /** Seconds after which a transfer is long enough to stop growing the payload. */
  const MaxTestDuration: real := 8.0

  /** One size of the progression: its label, the byte count of the synthetic
      upload payload, and the test file fetched for it. */
  datatype SizeStep = SizeStep(name: string, uploadBytes: nat, downloadUrl: string)

  /** The number of sizes in the progression. */
  const SizeCount: nat := 13

  /** The size labels in the order they are tried. */
  const Progression: seq<string> := [
    "128KB", "256KB", "512KB", "1MB", "2MB", "5MB", "10MB",
    "20MB", "40MB", "50MB", "100MB", "200MB", "512MB"
  ]

  const DownloadHost: string := "http://ipv4.download.thinkbroadband.com/"

  /** The upload byte counts and download files of the labels, in progression
      order; upload byte counts are binary multiples of 1024. */
  const Table: seq<SizeStep> := [
    SizeStep("128KB", 128 * 1024, DownloadHost + "128KB.zip"),
    SizeStep("256KB", 256 * 1024, DownloadHost + "256KB.zip"),
    SizeStep("512KB", 512 * 1024, DownloadHost + "512KB.zip"),
    SizeStep("1MB", 1 * 1024 * 1024, DownloadHost + "1MB.zip"),
    SizeStep("2MB", 2 * 1024 * 1024, DownloadHost + "2MB.zip"),
    SizeStep("5MB", 5 * 1024 * 1024, DownloadHost + "5MB.zip"),
    SizeStep("10MB", 10 * 1024 * 1024, DownloadHost + "10MB.zip"),
    SizeStep("20MB", 20 * 1024 * 1024, DownloadHost + "20MB.zip"),
    SizeStep("40MB", 40 * 1024 * 1024, DownloadHost + "40MB.zip"),
    SizeStep("50MB", 50 * 1024 * 1024, DownloadHost + "50MB.zip"),
    SizeStep("100MB", 100 * 1024 * 1024, DownloadHost + "100MB.zip"),
    SizeStep("200MB", 200 * 1024 * 1024, DownloadHost + "200MB.zip"),
    SizeStep("512MB", 512 * 1024 * 1024, DownloadHost + "512MB.zip")
  ]

  /** The table has exactly one entry per progression label, in the same
      order, so every label walked has an upload size. */
  lemma TableFollowsProgression()
    ensures |Table| == |Progression| == SizeCount
    ensures forall i :: 0 <= i < |Table| ==> Table[i].name == Progression[i]
  {
  }

  /** Every entry's download file is named after its label, so the
      download-URL lookup of a walked label never fails. */
  lemma TableDownloadFiles()
    ensures forall i :: 0 <= i < |Table| ==> Table[i].downloadUrl == DownloadHost + Table[i].name + ".zip"
  {
  }

  /** The size limit the tools use when none is requested. */
  const DefaultSizeLimit: string := "100MB"

  /** By default the walk may reach the eleven sizes up to "100MB". */
  lemma DefaultResolvesToHundredMegabytes()
    ensures |Resolve(DefaultSizeLimit)| == 11
    ensures Resolve(DefaultSizeLimit)[10].name == "100MB"
  {
    assert Progression[10] == DefaultSizeLimit;
    assert DefaultSizeLimit !in Progression[..10];
  }

  /** No label occurs twice in the progression, so a label has one position. */
  lemma ProgressionDistinct()
    ensures forall i, j :: 0 <= i < j < |Progression| ==> Progression[i] != Progression[j]
  {
  }

  /** Position of the first occurrence of `x` in `s`, as Python's `list.index`. */
  function IndexOf(s: seq<string>, x: string): (i: nat)
    requires x in s
    ensures i < |s| && s[i] == x
    ensures x !in s[..i]
  {
    if s[0] == x then 0
    else
      assert x in s[1..];
      var k := IndexOf(s[1..], x);
      assert s[..k + 1] == [s[0]] + s[1..][..k];
      k + 1
  }

  /** The last position of the progression to try for a requested size limit:
      the label's own position when it is a progression label, otherwise the
      last position, so an unknown label never raises. */
  function MaxIndex(limit: string): (i: nat)
    ensures i < |Progression|
    ensures limit in Progression ==> Progression[i] == limit && limit !in Progression[..i]
    ensures limit !in Progression ==> i == |Progression| - 1
  {
    if limit in Progression then IndexOf(Progression, limit) else |Progression| - 1
  }

  /** The sizes to walk for a requested size limit: a non-empty prefix of the
      table ending at the requested label, or the whole table when the label
      is unknown. */
  function Resolve(limit: string): (p: seq<SizeStep>)
    ensures 1 <= |p| <= |Table| == SizeCount
    ensures p == Table[..|p|]
    ensures limit in Progression ==> p[|p| - 1].name == limit && forall j :: 0 <= j < |p| - 1 ==> p[j].name != limit
    ensures limit !in Progression ==> p == Table
  {
    TableFollowsProgression();
    var i := MaxIndex(limit);
    if limit in Progression then
      PrefixEndsAt(Progression, Table, i, limit);
      Table[..i + 1]
    else
      assert Table[..i + 1] == Table;
      Table[..i + 1]
  }

  /** A limit other than the first label walks at least two sizes, and one
      other than the first two labels at least three. */
  lemma ResolveDepth(limit: string)
    ensures limit != "128KB" ==> |Resolve(limit)| >= 2
    ensures limit != "128KB" && limit != "256KB" ==> |Resolve(limit)| >= 3
  {
    var p := Resolve(limit);
    if |p| < 3 {
      assert p[|p| - 1] == Table[|p| - 1];
    }
  }

  /** In a table that follows `names`, the entry at the first occurrence of
      a label is the only one up to there with that label. */
  lemma PrefixEndsAt(names: seq<string>, table: seq<SizeStep>, i: nat, x: string)
    requires |table| == |names|
    requires forall j :: 0 <= j < |table| ==> table[j].name == names[j]
    requires i < |names| && names[i] == x && x !in names[..i]
    ensures table[i].name == x
    ensures forall j :: 0 <= j < i ==> table[j].name != x
  {
    forall j | 0 <= j < i
      ensures table[j].name != x
    {
      assert names[..i][j] == names[j];
    }
  }

  /** Upload byte counts strictly increase along the progression, which is the
      order the estimators walk it in. */
  lemma {:induction false} UploadSizesIncrease()
    ensures forall i, j :: 0 <= i < j < |Table| ==> Table[i].uploadBytes < Table[j].uploadBytes
  {
    forall i, j | 0 <= i < j < |Table|
      ensures Table[i].uploadBytes < Table[j].uploadBytes
    {
      var k := i + 1;
      while k < j
        invariant i < k <= j
        invariant Table[i].uploadBytes < Table[k].uploadBytes
      {
        k := k + 1;
      }
    }
  }

  /** Every upload payload is a whole number of binary kilobytes (1024 bytes),
      while throughput is reported in decimal megabits. */
  lemma UploadSizesBinary()
    ensures forall i :: 0 <= i < |Table| ==> Table[i].uploadBytes % 1024 == 0 && Table[i].uploadBytes > 0
  {
  }
}
