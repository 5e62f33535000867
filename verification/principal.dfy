/** Splitting a `name@host` principal into its two parts, the way the engine
    does it: split on every '@', take the first field as the account name and
    the second as the host. */
module Principal {

  datatype Account = Account(name: string, host: string)

  const Sep: char := '@'

  /** A principal as written in a GRANT statement, `name@host`: it holds at
      least one '@'. */
  type UserSpec = u: string | Sep in u witness "@"

  /** The field of `s` that ends at the first `sep`, or at the end of `s`. */
  function FieldBefore(s: string, sep: char): (r: string)
    ensures r <= s
    ensures sep !in r
    ensures |r| == |s| || s[|r|] == sep
  {
    if |s| == 0 || s[0] == sep then "" else [s[0]] + FieldBefore(s[1..], sep)
  }

  /** The three facts FieldBefore promises determine its result. */
  lemma FieldBeforeUnique(s: string, sep: char, p: string)
    requires p <= s && sep !in p
    requires |p| == |s| || s[|p|] == sep
    ensures FieldBefore(s, sep) == p
  {
    var r := FieldBefore(s, sep);
    assert |r| == |p|;
  }

  /** When `sep` occurs in `s`, the first field stops at a `sep`. */
  lemma FieldBeforeStopsAtSep(s: string, sep: char)
    requires sep in s
    ensures |FieldBefore(s, sep)| < |s| && s[|FieldBefore(s, sep)|] == sep
  {
    var r := FieldBefore(s, sep);
    assert |r| == |s| ==> r == s;
  }

  /** The first two '@'-separated fields of `u`: the name runs up to the
      first '@', and the host runs from there up to the next '@' or the end. */
  function SplitUser(u: UserSpec): (a: Account)
    ensures Sep !in a.name && Sep !in a.host
    ensures |a.name| < |u| && a.name <= u && u[|a.name|] == Sep
    ensures var rest := u[|a.name| + 1..];
      a.host <= rest && (|a.host| == |rest| || rest[|a.host|] == Sep)
  {
    var name := FieldBefore(u, Sep);
    FieldBeforeStopsAtSep(u, Sep);
    Account(name, FieldBefore(u[|name| + 1..], Sep))
  }

  /** Writing a principal as `name@host` and splitting it again gives back
      the same name and host, provided neither part holds an '@'. */
  lemma SplitJoin(name: string, host: string)
    requires Sep !in name && Sep !in host
    ensures Sep in name + [Sep] + host
    ensures SplitUser(name + [Sep] + host) == Account(name, host)
  {
    var u := name + [Sep] + host;
    assert u[|name|] == Sep;
    assert name <= u;
    FieldBeforeUnique(u, Sep, name);
    assert u[|name| + 1..] == host;
    FieldBeforeUnique(host, Sep, host);
  }
}
