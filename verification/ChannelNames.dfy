/** Channel names `prefix-major.minor`, which the cross-channel walk prints and reads back. */
module ChannelNames {
  import opened Choice
  import opened Outcome
  import opened Text
  import opened Semver

  /** The version and the prefix a channel name stands for. */
  datatype Channel = Channel(version: Version, prefix: string)

  /** The name's text after its last dash, completed with ".0", must be a version. */
  function ParseChannel(name: string): Result<Channel>
  {
    var i := LastIndexOf(name, '-');
    if i == -1 then Err(InvalidChannelName) else
    match Parse(name[i + 1..] + ".0")
    case Ok(v) => Ok(Channel(v, name[..i]))
    case Err(e) => Err(e)
  }

  /** `getSemverFromChannels`: both names are searched for a dash before either version is read. */
  function ParseChannels(source: string, target: string): Result<(Version, Version, string)>
  {
    if LastIndexOf(source, '-') == -1 || LastIndexOf(target, '-') == -1 then Err(InvalidChannelName) else
    match (ParseChannel(source), ParseChannel(target))
    case (Ok(s), Ok(t)) => Ok((s.version, t.version, s.prefix))
    case (Err(e), _) => Err(e)
    case (_, Err(e)) => Err(e)
  }

  /** `fmt.Sprintf("%s-%v.%v", prefix, major, minor)`. */
  function ChannelName(prefix: string, major: U64, minor: U64): string
  {
    prefix + "-" + (Itoa(major) + "." + Itoa(minor))
  }

  function MinorVersion(major: U64, minor: U64): Version
  {
    Version(major, minor, 0, [], [])
  }

  /** A printed name reads back as its own prefix, major and minor, even when the prefix contains dashes. */
  lemma ParseChannelName(prefix: string, major: U64, minor: U64)
    ensures ParseChannel(ChannelName(prefix, major, minor)) == Ok(Channel(MinorVersion(major, minor), prefix))
  {
    var text := Itoa(major) + "." + Itoa(minor);
    var name := ChannelName(prefix, major, minor);
    assert name == prefix + ['-'] + text;
    LastIndexOfConcat(prefix, '-', text);
    assert name[|prefix| + 1..] == text && name[..|prefix|] == prefix;
    MinorVersionText(major, minor);
    ParseToString(MinorVersion(major, minor));
  }

  /** Two printed names read as their own versions, and the walk goes on with the prefix of the source. */
  lemma PrintedNamesRead(prefix: string, major: U64, minor: U64, prefix': string, major': U64, minor': U64)
    ensures ParseChannels(ChannelName(prefix, major, minor), ChannelName(prefix', major', minor')) ==
            Ok((MinorVersion(major, minor), MinorVersion(major', minor'), prefix))
  {
    ParseChannelName(prefix, major, minor);
    ParseChannelName(prefix', major', minor');
  }

  lemma MinorVersionText(major: U64, minor: U64)
    ensures Itoa(major) + "." + Itoa(minor) + ".0" == ToString(MinorVersion(major, minor))
  {
  }

  lemma ChannelNameInjective(prefix: string, major: U64, m: U64, n: U64)
    ensures ChannelName(prefix, major, m) == ChannelName(prefix, major, n) ==> m == n
  {
    ParseChannelName(prefix, major, m);
    ParseChannelName(prefix, major, n);
  }

  /** The minor reached by `k` increments in 64-bit arithmetic. */
  function MinorAfter(minor: U64, k: nat): U64
  {
    (minor + k) % U64_LIMIT
  }

  function NextMinor(minor: U64): U64
  {
    MinorAfter(minor, 1)
  }

  lemma MinorAfterNext(minor: U64, k: nat)
    ensures MinorAfter(NextMinor(minor), k) == MinorAfter(minor, k + 1)
  {
  }

  // ---------------------------------------------------------------- a name without a channel

  ghost function Names(arch: string, prefix: string, major: U64, k: nat): set<(string, string)>
    requires k <= U64_LIMIT
  {
    if k == 0 then {} else Names(arch, prefix, major, k - 1) + {(arch, ChannelName(prefix, major, k - 1))}
  }

  lemma {:induction false} NamesBelow(arch: string, prefix: string, major: U64, k: nat, x: (string, string))
    requires k <= U64_LIMIT && x in Names(arch, prefix, major, k)
    ensures exists m: U64 :: m < k && x == (arch, ChannelName(prefix, major, m))
  {
    if x in Names(arch, prefix, major, k - 1) {
      NamesBelow(arch, prefix, major, k - 1, x);
    }
  }

  lemma NextNameIsNew(arch: string, prefix: string, major: U64, k: U64)
    ensures (arch, ChannelName(prefix, major, k)) !in Names(arch, prefix, major, k)
  {
    var x := (arch, ChannelName(prefix, major, k));
    if x in Names(arch, prefix, major, k) {
      NamesBelow(arch, prefix, major, k, x);
      var m: U64 :| m < k && x == (arch, ChannelName(prefix, major, m));
      ChannelNameInjective(prefix, major, m, k);
    }
  }

  lemma {:induction false} NamesSize(arch: string, prefix: string, major: U64, k: nat)
    requires k <= U64_LIMIT
    ensures |Names(arch, prefix, major, k)| == k
  {
    if k > 0 {
      NamesSize(arch, prefix, major, k - 1);
      NextNameIsNew(arch, prefix, major, k - 1);
    }
  }

  /** Fewer than 2^64 channels cannot take all names of one prefix and major. */
  lemma SomeNameIsFree(taken: set<(string, string)>, arch: string, prefix: string, major: U64) returns (gap: U64)
    requires |taken| < U64_LIMIT
    ensures (arch, ChannelName(prefix, major, gap)) !in taken
  {
    var all := Names(arch, prefix, major, U64_LIMIT);
    NamesSize(arch, prefix, major, U64_LIMIT);
    if all <= taken {
      SubsetSize(all, taken);
      assert false;
    }
    var x :| x in all && x !in taken;
    NamesBelow(arch, prefix, major, U64_LIMIT, x);
    gap :| x == (arch, ChannelName(prefix, major, gap));
  }
}
