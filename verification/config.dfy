/**
 Configuration precedence of `parse_argument` (fds/fds_cmd.py): command-line
 flags against the per-user JSON configuration file.

 A flag is `None` when it was not given (or given without a value) and a
 string otherwise; the configuration file is the map its JSON object decodes
 to, and a missing key reads as `None`, as `dict.get` does.
 */
module Config {
  import opened Common

  /** The command-line flags that `parse_argument` merges with the file. */
  datatype Args = Args(
    bucket: Option<string>,
    region: Option<string>,
    endPoint: Option<string>,
    ak: Option<string>,
    sk: Option<string>)

  /** The module-level settings `parse_argument` leaves behind. */
  datatype Settings = Settings(
    bucket: Option<string>,
    region: Option<string>,
    endPoint: Option<string>,
    accessKey: Option<string>,
    secretKey: Option<string>)

  /** `local_config.get(key)`. */
  function Lookup(file: map<string, string>, key: string): (r: Option<string>)
    ensures r.Some? <==> key in file
    ensures r.Some? ==> r.value == file[key]
  {
    if key in file then Some(file[key]) else None
  }

  /** A truthy flag wins; otherwise the file's value, which may be absent. */
  function Prefer(flag: Option<string>, fromFile: Option<string>): (r: Option<string>)
    ensures Truthy(flag) ==> r == flag
    ensures !Truthy(flag) ==> r == fromFile
  {
    if Truthy(flag) then flag else fromFile
  }

  /** The value of the module-level `end_point` before `parse_argument` runs. */
  const InitialEndPoint: Option<string> := None

  /**
   The end point selected by the region/end-point branch: a truthy `-e`
   wins; with a truthy `-r` and no `-e` the previous value is kept; with
   neither, the file's `end_point` is taken.
   */
  function ChooseEndPoint(args: Args, file: map<string, string>, previous: Option<string>): (r: Option<string>)
    ensures Truthy(args.endPoint) ==> r == args.endPoint
    ensures !Truthy(args.endPoint) && Truthy(args.region) ==> r == previous
    ensures !Truthy(args.endPoint) && !Truthy(args.region) ==> r == Lookup(file, "end_point")
  {
    if Truthy(args.region) then
      if Truthy(args.endPoint) then args.endPoint else previous
    else
      if Truthy(args.endPoint) then args.endPoint else Lookup(file, "end_point")
  }

  /**
   `parse_argument` as written: the end point chosen by the region branch is
   overwritten by the raw `-e` value a few lines later.
   */
  function ParseArgument(args: Args, file: map<string, string>): (s: Settings)
    ensures Truthy(args.bucket) ==> s.bucket == args.bucket
    ensures !Truthy(args.bucket) ==> s.bucket == Lookup(file, "bucket")
    ensures Truthy(args.region) ==> s.region == args.region
    ensures !Truthy(args.region) ==> s.region == Lookup(file, "region")
    ensures s.endPoint == args.endPoint
    ensures Truthy(args.ak) ==> s.accessKey == args.ak
    ensures !Truthy(args.ak) ==> s.accessKey == Lookup(file, "ak")
    ensures Truthy(args.sk) ==> s.secretKey == args.sk
    ensures !Truthy(args.sk) ==> s.secretKey == Lookup(file, "sk")
  {
    var bucket := Prefer(args.bucket, Lookup(file, "bucket"));
    var region := Prefer(args.region, Lookup(file, "region"));
    var chosen := ChooseEndPoint(args, file, InitialEndPoint);
    var endPoint := args.endPoint;
    Settings(bucket, region, endPoint, Prefer(args.ak, Lookup(file, "ak")), Prefer(args.sk, Lookup(file, "sk")))
  }

  /**
   `parse_argument` with the region branch's choice of end point kept, which
   is what the file's documented optional `end_point` key needs.
   */
  function ParseArgumentIntended(args: Args, file: map<string, string>): (s: Settings)
    ensures s.endPoint == ChooseEndPoint(args, file, InitialEndPoint)
    ensures s.(endPoint := args.endPoint) == ParseArgument(args, file)
  {
    ParseArgument(args, file).(endPoint := ChooseEndPoint(args, file, InitialEndPoint))
  }

  /** Whatever the file says, a truthy flag is what ends up in the settings. */
  lemma FlagsOverrideFile(args: Args, file1: map<string, string>, file2: map<string, string>)
    requires Truthy(args.bucket) && Truthy(args.region) && Truthy(args.ak) && Truthy(args.sk)
    ensures ParseArgument(args, file1) == ParseArgument(args, file2)
  {
  }

  /** With no flags at all, every setting except the end point comes from the file. */
  lemma FileFillsMissingFlags(file: map<string, string>)
    ensures var s := ParseArgument(Args(None, None, None, None, None), file);
      && s.bucket == Lookup(file, "bucket")
      && s.region == Lookup(file, "region")
      && s.accessKey == Lookup(file, "ak")
      && s.secretKey == Lookup(file, "sk")
  {
  }

  /** As written, the file's `end_point` never reaches the settings. */
  lemma FileEndPointIgnored(args: Args, file: map<string, string>)
    requires "end_point" in file && !Truthy(args.endPoint) && !Truthy(args.region)
    ensures ParseArgument(args, file).endPoint == args.endPoint
    ensures ParseArgumentIntended(args, file).endPoint == Some(file["end_point"])
    ensures args.endPoint != Some(file["end_point"]) ==> ParseArgument(args, file) != ParseArgumentIntended(args, file)
  {
  }

  /** The smallest input that shows it: no flags, a file naming an end point. */
  lemma FileEndPointIgnoredExample()
    ensures ParseArgument(Args(None, None, None, None, None), map["end_point" := "cnbj1.fds.api.xiaomi.com"]).endPoint == None
    ensures ParseArgumentIntended(Args(None, None, None, None, None), map["end_point" := "cnbj1.fds.api.xiaomi.com"]).endPoint
      == Some("cnbj1.fds.api.xiaomi.com")
  {
  }

  /**
   In the corrected merge the file's `end_point` takes effect exactly when
   neither `-e` nor `-r` is truthy.
   */
  lemma IntendedEndPointFromFile(args: Args, file: map<string, string>)
    requires "end_point" in file
    requires args.endPoint != Some(file["end_point"])
    ensures ParseArgumentIntended(args, file).endPoint == Some(file["end_point"])
        <==> !Truthy(args.endPoint) && !Truthy(args.region)
  {
  }
}
