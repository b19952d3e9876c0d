# Automated EBS Snapshots: watch registry and configuration reader

A Dafny model of the two pieces of policy in `automated_ebs_snapshots`:

- **The watch registry** (`volume_manager.py`). Whether an EBS volume is
  watched, and at which backup interval, lives in one tag of the volume,
  `SkymillEBSSnapshotInterval`. The EC2 connection is a `Connection` object
  holding the table of volumes (`map<VolumeId, map<string, string>>`, volume
  id to tags) and the order in which the connection lists them. `watch` and
  `unwatch` are methods that change one key of one volume's tag map.
  `get_watched_volumes` is a filter over the listing (`WatchedVolumes`).
  The per-volume decision in `list` is a three-way classification
  (`Classify`): tag missing, invalid interval, or the interval itself.
  The valid intervals are hourly, daily, weekly, monthly and yearly, as
  `watch`'s docstring names them. The default interval is daily.
- **The configuration reader** (`config_parser.py`). The parsed INI file is
  an ordered sequence of sections, each a name and an option map.
  `GetConfiguration` rejects a file without `[general]`. It reads the three
  AWS credentials from `[general]`. It then walks the sections in order and
  adds one entry for each section whose name starts with `vol-`, holding the
  verbatim `snapshot-interval` and `snapshot-retention` strings. It stops
  with an error at the first such section that lacks either option.

What is proved:

- `watch` sets the interval tag of an existing volume and returns true,
  even for an invalid interval, which only raises the warning.
- `watch` changes no other tag and no other volume.
- `watch` is idempotent, and so is `unwatch`.
- `watch` followed by `unwatch` leaves the volume unlisted. If it was not
  watched before, the listing is exactly as before.
- `unwatch` removes exactly that volume from `get_watched_volumes` and keeps
  the order of the rest. It always returns true.
- `get_watched_volumes` lists exactly the volumes carrying the tag, whatever
  its value, in the connection's order.
- `list` gives one row per watched volume, in order, with its
  classification. It gives the "no watched volumes" outcome exactly when
  nothing is watched. It never reports "Interval tag not found", because every
  listed volume carries the tag.
- For the configuration: the credentials and the volume entries are exactly
  what the file holds, and each error case is stated.

Files: `volume_manager.dfy` (module `VolumeManager`) and `config_parser.dfy`
(module `ConfigParser`).

## Model

| member | source | states |
|---|---|---|
| `VolumeManager.WatchedVolumes` | automated_ebs_snapshots/volume_manager.py:5-13 | a volume is listed iff it carries the SkymillEBSSnapshotInterval key, whatever its value; the result keeps the connection's order (a subsequence) and has no duplicates |
| `VolumeManager.ListingIgnoresOneVolume` | automated_ebs_snapshots/volume_manager.py:12-13 | the listing of all volumes other than one depends only on which of them carry the tag |
| `VolumeManager.Classify` | automated_ebs_snapshots/volume_manager.py:35-47 | each volume gets exactly one of "tag not found" (key absent), "invalid interval" (value outside the valid set) or its interval value, and the last only when the value is valid |
| `VolumeManager.Connection.List` | automated_ebs_snapshots/volume_manager.py:16-49 | for a connection whose listing holds exactly its volumes: "no watched volumes" exactly when no volume carries the tag; otherwise one row per watched volume, in listing order, with its classification, the row ids being exactly the tagged volumes, each once; no row is ever "tag not found" |
| `VolumeManager.AfterWatch` | automated_ebs_snapshots/volume_manager.py:93-97 | the named volume's interval tag holds the given interval; its other tags, all other volumes and the set of volumes are unchanged; an unknown volume leaves the table unchanged |
| `VolumeManager.AfterUnwatch` | automated_ebs_snapshots/volume_manager.py:61-63 | the named volume no longer carries the tag; its other tags and all other volumes are unchanged; an unknown volume leaves the table unchanged |
| `VolumeManager.RemoveThenAdd` | automated_ebs_snapshots/volume_manager.py:93-97 | removing the tag and re-adding it gives the same tags as setting it |
| `VolumeManager.Connection.RemoveTag` | automated_ebs_snapshots/volume_manager.py:94 | the key is gone from that volume's tags and nothing else changes |
| `VolumeManager.Connection.AddTag` | automated_ebs_snapshots/volume_manager.py:97 | the key of that volume's tags holds the value and nothing else changes |
| `VolumeManager.Connection.Watch` | automated_ebs_snapshots/volume_manager.py:72-102 | false and no change when the volume cannot be looked up; otherwise true, the warning exactly when the interval is not valid, and the new table is the old one with the interval tag set (remove, then add); the interval defaults to daily |
| `VolumeManager.Connection.Unwatch` | automated_ebs_snapshots/volume_manager.py:52-69 | always true; the interval tag of the volume is removed when it can be looked up, nothing else changes |
| `VolumeManager.WatchThenClassify` | automated_ebs_snapshots/volume_manager.py:89-97 | after watch the volume is watched and is listed with the interval when it is valid and as "invalid interval" otherwise |
| `VolumeManager.WatchDefaultIsDaily` | automated_ebs_snapshots/volume_manager.py:72 | watch with the default interval makes the volume listed as daily |
| `VolumeManager.WatchIdempotent` | automated_ebs_snapshots/volume_manager.py:93-97 | watching twice with the same interval gives the same table as watching once |
| `VolumeManager.UnwatchIdempotent` | automated_ebs_snapshots/volume_manager.py:61-65 | unwatching twice gives the same table as unwatching once |
| `VolumeManager.WatchUnwatchRoundTrip` | automated_ebs_snapshots/volume_manager.py:61-63 | watch then unwatch equals unwatch alone, the volume is not listed afterwards, and for a volume not watched before the listing is exactly the original one |
| `VolumeManager.UnwatchListing` | automated_ebs_snapshots/volume_manager.py:61-63 | after unwatch, get_watched_volumes is the old listing with exactly that volume removed |
| `VolumeManager.WatchListing` | automated_ebs_snapshots/volume_manager.py:93-97 | after watch the volume is listed and the listing of every other volume is as before |
| `ConfigParser.FindSection` | automated_ebs_snapshots/config_parser.py:23 | no result iff no section has that name; otherwise the options of the section of that name |
| `ConfigParser.StartConfig` | automated_ebs_snapshots/config_parser.py:23-32 | the error is "missing [general]" exactly when no section is named general; otherwise the result is that of reading the credentials from the general section |
| `ConfigParser.InitialConfig` | automated_ebs_snapshots/config_parser.py:27-32 | success iff [general] has aws-access-key-id, aws-secret-access-key and aws-region, and then the record holds exactly those values and no volumes; otherwise the error names the first missing option in that order |
| `ConfigParser.ReadVolume` | automated_ebs_snapshots/config_parser.py:39-47 | success iff the section has both snapshot-interval and snapshot-retention, copied verbatim; otherwise the error names the section and one of those two options that is missing, snapshot-interval when both are |
| `ConfigParser.GetConfiguration` | automated_ebs_snapshots/config_parser.py:9-49 | a file without [general] is rejected; a credential error comes next; otherwise success iff every vol- section is complete, the error being that of the first incomplete one in file order; on success the credentials are those of [general], the volume keys are exactly the names whose first four characters are "vol-", each entry is its section's two options, and with no vol- sections the volume map is empty |

## Left out

- Snapshot creation, the due check and retention pruning are not modelled. `snapshot_manager.py` only queries snapshots and discards the result, so there is no such behaviour in the code to model.
- The model follows `volume_manager.py` as it stands. The only tag is `SkymillEBSSnapshotInterval`: there is no retention tag and no lookup of a volume by its `Name` tag, and `unwatch` removes only the interval tag. Later tag schemes of the project (an `AutomatedEBSSnapshots` key with a retention tag) are not modelled.
- `VALID_INTERVALS` comes from `valid_intervals.py`, which is not part of this model. The set is taken from `watch`'s docstring.
- VolumeManager.Connection.Watch: a failed lookup is modelled as the `except KeyError` branch (the volume is not in the table). In the code, indexing an empty lookup result raises `IndexError` and the EC2 API raises its own error, and neither is caught. Without that branch, an unknown volume would crash `watch` rather than return false.
- VolumeManager.Connection.Unwatch: the same goes for the lookup guard of `unwatch`. An unknown volume is modelled as no change and a true result.
- Boto and the network: `get_all_volumes` with its tag-key filter, `remove_tag` and `add_tag` are operations on the in-memory table. Remote failures, partial writes and concurrent writers are not modelled.
- The printed text, the column layout of `list` and the messages of `watch` and `unwatch` are not modelled. `list` yields rows of (volume id, classification). `watch`'s printed warning is the `invalidWarning` result.
- `connection_manager.py`, `command_line_options.py`, `__init__.py` and `setup.py` are argument parsing, connection setup and packaging. `__init__.py` calls `list_watched_volumes`, which `volume_manager.py` does not define.
- `config_file_parser.py` is a separate reader of three differently named credentials (`access-key-id`, `secret-access-key`, `region`) that logs and exits on a missing one; it has no `vol-` sections and is not part of this model.
- Reading the file, the `if not conf` check, logging and `sys.exit` are not modelled. An exit becomes an `Err` value. A missing credential is an uncaught `NoOptionError` in the code, and a missing volume option is logged before exiting. The two are told apart by the error constructor.
- ConfigParser.GetConfiguration: the parser's `[DEFAULT]` section, `%(name)s` interpolation, lower-casing of option names and merging of repeated section headers are not modelled. The parsed file is taken to have distinct section names, as the parser's section dictionary has.
