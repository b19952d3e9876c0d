/**
 * The configuration reader of automated_ebs_snapshots/config_parser.py.
 *
 * The INI file, once parsed, is an ordered sequence of sections, each with
 * its name and its option map. get_configuration takes the AWS credentials
 * from the [general] section and one volume entry from every section whose
 * name starts with "vol-".
 */
module ConfigParser {

  datatype Option<T> = None | Some(value: T)

  datatype Result<T, E> = Ok(value: T) | Err(error: E)

  type Options = map<string, string>

  datatype Section = Section(name: string, options: Options)

  const General: string := "general"
  const VolumePrefix: string := "vol-"

  const AccessKeyIdOption: string := "aws-access-key-id"
  const SecretAccessKeyOption: string := "aws-secret-access-key"
  const RegionOption: string := "aws-region"
  /** The credential options in the order the configuration record reads them. */
  const CredentialOptions: seq<string> := [AccessKeyIdOption, SecretAccessKeyOption, RegionOption]

  const IntervalOption: string := "snapshot-interval"
  const RetentionOption: string := "snapshot-retention"

  /** One volume entry: the two option strings, as written in the file. */
  datatype VolumeSettings = VolumeSettings(snapshotInterval: string, snapshotRetention: string)

  /** The configuration record get_configuration returns. */
  datatype Config = Config(
    awsAccessKeyId: string,
    awsSecretAccessKey: string,
    awsRegion: string,
    volumes: map<string, VolumeSettings>)

  datatype ConfigError =
    | MissingGeneralSection
      /** conf.get on [general] raised NoOptionError (not caught there). */
    | MissingCredential(option: string)
      /** conf.get on a vol- section raised NoOptionError (logged, then exit). */
    | MissingVolumeOption(section: string, option: string)

  /** A parsed file holds each section name once, as the parser's section dictionary does. */
  predicate DistinctNames(file: seq<Section>)
  {
    forall i, j :: 0 <= i < j < |file| ==> file[i].name != file[j].name
  }

  /** The first four characters of the name are "vol-"; shorter names never match. */
  predicate IsVolumeSection(name: string)
  {
    |name| >= |VolumePrefix| && name[..|VolumePrefix|] == VolumePrefix
  }

  /** has_section / the option map of a named section. */
  function FindSection(file: seq<Section>, name: string): (r: Option<Options>)
    ensures r == None <==> forall i :: 0 <= i < |file| ==> file[i].name != name
    ensures DistinctNames(file) ==>
      forall i :: 0 <= i < |file| && file[i].name == name ==> r == Some(file[i].options)
  {
    if file == [] then None
    else if file[0].name == name then Some(file[0].options)
    else FindSection(file[1..], name)
  }

  /**
   * The configuration record as first built from the [general] options:
   * the three credentials, read in order, and no volumes yet.
   */
  function InitialConfig(general: Options): (r: Result<Config, ConfigError>)
    ensures r.Ok? <==> AccessKeyIdOption in general && SecretAccessKeyOption in general && RegionOption in general
    ensures r.Ok? ==>
      && r.value.awsAccessKeyId == general[AccessKeyIdOption]
      && r.value.awsSecretAccessKey == general[SecretAccessKeyOption]
      && r.value.awsRegion == general[RegionOption]
      && r.value.volumes == map[]
    ensures r.Err? ==>
      && r.error.MissingCredential?
      && r.error.option in CredentialOptions
      && r.error.option !in general
      && (r.error.option != AccessKeyIdOption ==> AccessKeyIdOption in general)
      && (r.error.option == RegionOption ==> SecretAccessKeyOption in general)
  {
    if AccessKeyIdOption !in general then Err(MissingCredential(AccessKeyIdOption))
    else if SecretAccessKeyOption !in general then Err(MissingCredential(SecretAccessKeyOption))
    else if RegionOption !in general then Err(MissingCredential(RegionOption))
    else Ok(Config(general[AccessKeyIdOption], general[SecretAccessKeyOption], general[RegionOption], map[]))
  }

  /** The entry of one vol- section: both options copied verbatim, interval looked up first. */
  function ReadVolume(section: Section): (r: Result<VolumeSettings, ConfigError>)
    ensures r.Ok? <==> IntervalOption in section.options && RetentionOption in section.options
    ensures r.Ok? ==>
      && r.value.snapshotInterval == section.options[IntervalOption]
      && r.value.snapshotRetention == section.options[RetentionOption]
    ensures r.Err? ==>
      && r.error.MissingVolumeOption?
      && r.error.section == section.name
      && r.error.option in {IntervalOption, RetentionOption}
      && r.error.option !in section.options
      && (r.error.option == RetentionOption ==> IntervalOption in section.options)
  {
    if IntervalOption !in section.options then Err(MissingVolumeOption(section.name, IntervalOption))
    else if RetentionOption !in section.options then Err(MissingVolumeOption(section.name, RetentionOption))
    else Ok(VolumeSettings(section.options[IntervalOption], section.options[RetentionOption]))
  }

  /** The names of the vol- sections of a file. */
  function VolumeSectionNames(file: seq<Section>): set<string>
  {
    set s | s in file && IsVolumeSection(s.name) :: s.name
  }

  /** Every vol- section carries both options. */
  predicate AllVolumesComplete(file: seq<Section>)
  {
    forall i :: 0 <= i < |file| && IsVolumeSection(file[i].name) ==> ReadVolume(file[i]).Ok?
  }

  /** e is the error of the first vol- section, in file order, that lacks an option. */
  predicate FirstIncompleteVolume(file: seq<Section>, e: ConfigError)
  {
    exists i :: 0 <= i < |file| && IsVolumeSection(file[i].name) && ReadVolume(file[i]) == Err(e)
      && forall j :: 0 <= j < i && IsVolumeSection(file[j].name) ==> ReadVolume(file[j]).Ok?
  }

  /**
   * The record get_configuration holds before its section loop: an error
   * when [general] is missing or lacks a credential, else the credentials
   * with no volumes.
   */
  function StartConfig(file: seq<Section>): (r: Result<Config, ConfigError>)
    ensures r == Err(MissingGeneralSection) <==> forall i :: 0 <= i < |file| ==> file[i].name != General
    ensures DistinctNames(file) ==>
      forall i :: 0 <= i < |file| && file[i].name == General ==> r == InitialConfig(file[i].options)
  {
    match FindSection(file, General)
    case None => Err(MissingGeneralSection)
    case Some(general) => InitialConfig(general)
  }

  /**
   * get_configuration: reject a file without [general]; build the record
   * from the credentials; then add one entry per vol- section, stopping at
   * the first such section that lacks an option.
   */
  method GetConfiguration(file: seq<Section>) returns (r: Result<Config, ConfigError>)
    requires DistinctNames(file)
    ensures StartConfig(file).Err? ==> r == StartConfig(file)
    ensures r.Ok? <==> StartConfig(file).Ok? && AllVolumesComplete(file)
    ensures r.Err? && StartConfig(file).Ok? ==> FirstIncompleteVolume(file, r.error)
    ensures r.Ok? ==> r.value == StartConfig(file).value.(volumes := r.value.volumes)
    ensures r.Ok? ==> r.value.volumes.Keys == VolumeSectionNames(file)
    ensures r.Ok? ==> forall i :: 0 <= i < |file| && IsVolumeSection(file[i].name) ==>
                        r.value.volumes[file[i].name] == ReadVolume(file[i]).value
    ensures StartConfig(file).Ok? && (forall i :: 0 <= i < |file| ==> !IsVolumeSection(file[i].name)) ==>
              r.Ok? && r.value.volumes == map[]
  {
    var start := StartConfig(file);
    if start.Err? {
      return start;
    }
    var config := start.value;
    for i := 0 to |file|
      invariant config == start.value.(volumes := config.volumes)
      invariant config.volumes.Keys == VolumeSectionNames(file[..i])
      invariant forall j :: 0 <= j < i && IsVolumeSection(file[j].name) ==>
                  ReadVolume(file[j]).Ok? && config.volumes[file[j].name] == ReadVolume(file[j]).value
    {
      var section := file[i];
      assert file[..i + 1] == file[..i] + [section];
      if IsVolumeSection(section.name) {
        var entry := ReadVolume(section);
        if entry.Err? {
          return Err(entry.error);
        }
        config := config.(volumes := config.volumes[section.name := entry.value]);
      }
    }
    assert file[..|file|] == file;
    r := Ok(config);
  }
}
