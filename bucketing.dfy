/**
 * How sanitizing groups the names of one category into coarser buckets:
 * versions by their `major.minor` branch, operating systems by their first
 * word, anything else by the name itself.
 */
module Bucketing {
  import opened PhpStrings
  import opened Telemetry

  /** The three ways the `switch ($key)` in sanitizing treats a category. */
  datatype BucketRule = MinorVersion | OsFamily | ByName

  /**
   * `case 'php_version': case 'db_version': case 'cms_version':` group by
   * branch; `case 'server_os':` by OS; `case 'db_type': default:` by name.
   */
  function RuleFor(key: string): BucketRule
  {
    if key == PhpVersion || key == DbVersion || key == CmsVersion then MinorVersion
    else if key == ServerOs then OsFamily
    else ByName
  }

  /** `$exploded[0] . '.' . (isset($exploded[1]) ? $exploded[1] : '0')` */
  function VersionBucket(name: string): string
  {
    var parts := Explode('.', name);
    parts[0] + "." + (if |parts| > 1 then parts[1] else "0")
  }

  /** `explode(' ', $row['name'])[0]` */
  function OsBucket(name: string): string
  {
    Explode(' ', name)[0]
  }

  /** The bucket a name falls into under a grouping rule. */
  function Bucket(rule: BucketRule, name: string): string
  {
    match rule
    case MinorVersion => VersionBucket(name)
    case OsFamily => OsBucket(name)
    case ByName => name
  }

  /**
   * A version with a dot is bucketed on its first two pieces, whatever
   * follows them (`7.4.3` is in `7.4`, `7.4` in `7.4`, `7.` in `7.`).
   */
  lemma VersionBucketOf(major: string, minor: string, rest: string)
    requires '.' !in major && '.' !in minor
    requires rest == "" || rest[0] == '.'
    ensures VersionBucket(major + "." + minor + rest) == major + "." + minor
  {
    if rest == "" {
      assert major + "." + minor + rest == major + ['.'] + minor;
      ExplodeAfterPiece('.', major, minor);
      ExplodePlain('.', minor);
    } else {
      var tail := rest[1..];
      assert major + "." + minor + rest == major + ['.'] + (minor + ['.'] + tail);
      ExplodeAfterPiece('.', major, minor + ['.'] + tail);
      ExplodeAfterPiece('.', minor, tail);
    }
  }

  /** A version without a dot gets the minor version 0 (`7` is in `7.0`). */
  lemma VersionBucketNoDot(name: string)
    requires '.' !in name
    ensures VersionBucket(name) == name + ".0"
  {
    ExplodePlain('.', name);
  }

  /** A bucket label is its own bucket. */
  lemma VersionBucketIdempotent(name: string)
    ensures VersionBucket(VersionBucket(name)) == VersionBucket(name)
  {
    var parts := Explode('.', name);
    ExplodeSpec('.', name);
    var minor := if |parts| > 1 then parts[1] else "0";
    assert '.' !in minor;
    VersionBucketOf(parts[0], minor, "");
    assert parts[0] + "." + minor + "" == VersionBucket(name);
  }

  /**
   * The OS bucket of a name is the text before its first space: `family`
   * without a space, then nothing or a space (`Linux 5.10` is in `Linux`).
   */
  lemma OsBucketOf(family: string, rest: string)
    requires ' ' !in family
    requires rest == "" || rest[0] == ' '
    ensures OsBucket(family + rest) == family
  {
    if rest == "" {
      assert family + rest == family;
      ExplodePlain(' ', family);
    } else {
      assert family + rest == family + [' '] + rest[1..];
      ExplodeAfterPiece(' ', family, rest[1..]);
    }
  }

  /**
   * Every name splits as its OS bucket followed by nothing or by a space;
   * so an OS bucket label is its own bucket.
   */
  lemma OsBucketSplit(name: string)
    ensures |OsBucket(name)| <= |name| && name[..|OsBucket(name)|] == OsBucket(name)
    ensures ' ' !in OsBucket(name)
    ensures |OsBucket(name)| == |name| || name[|OsBucket(name)|] == ' '
    ensures OsBucket(OsBucket(name)) == OsBucket(name)
  {
    ExplodeFirst(' ', name);
    OsBucketOf(OsBucket(name), "");
    assert OsBucket(name) + "" == OsBucket(name);
  }
}
