/** The API path table shared by server and client, and `buildUrl`, which
    fills `:key` placeholders in a path. */
module Urls {
  import opened Wrappers
  import opened Text

  const LoginPath := "/api/auth/login"
  const LogoutPath := "/api/auth/logout"
  const MePath := "/api/auth/me"
  const PublicSettingsPath := "/api/settings"
  const CheckPath := "/api/check"
  const StudentsPath := "/api/admin/students"
  const StudentPath := "/api/admin/students/:id"
  const ImportPath := "/api/admin/students/import"
  const SettingsUpdatePath := "/api/admin/settings"

  /** A parameter value: a string, or an integer number. */
  datatype ParamValue = Str(s: string) | Num(n: int)

  /** `String(value)`. */
  function ValueString(v: ParamValue): string {
    match v
    case Str(s) => s
    case Num(n) => IntString(n)
  }

  function Placeholder(key: string): string {
    ":" + key
  }

  /** One step of the `forEach`: when the url includes `:key`, its first
      occurrence is replaced by the value, with `replace`'s `$` patterns. */
  function Substitute(url: string, key: string, value: ParamValue): (r: string)
    ensures !Contains(url, Placeholder(key)) ==> r == url
    ensures Contains(url, Placeholder(key)) ==>
              var i := IndexOf(url, Placeholder(key)).value;
              i + |key| + 1 <= |url| && url[..i] <= r && EndsWith(r, url[i + |key| + 1..])
  {
    if Contains(url, Placeholder(key)) then ReplaceFirst(url, Placeholder(key), ValueString(value))
    else url
  }

  /** The url after every entry has been applied, in order. */
  function SubstituteAll(url: string, params: seq<(string, ParamValue)>): (r: string)
    ensures |params| == 0 ==> r == url
    ensures (forall k :: 0 <= k < |params| ==> !Contains(url, Placeholder(params[k].0))) ==> r == url
    decreases |params|
  {
    if |params| == 0 then url
    else SubstituteAll(Substitute(url, params[0].0, params[0].1), params[1..])
  }

  /** `buildUrl(path, params)`. */
  method BuildUrl(path: string, params: Option<seq<(string, ParamValue)>>) returns (url: string)
    ensures params.None? ==> url == path
    ensures params.Some? ==> url == SubstituteAll(path, params.value)
  {
    url := path;
    if params.Some? {
      var entries := params.value;
      var i := 0;
      while i < |entries|
        invariant 0 <= i <= |entries|
        invariant SubstituteAll(url, entries[i..]) == SubstituteAll(path, entries)
      {
        assert entries[i..][1..] == entries[i + 1..];
        var (key, value) := entries[i];
        if Contains(url, Placeholder(key)) {
          url := ReplaceFirst(url, Placeholder(key), ValueString(value));
        }
        i := i + 1;
      }
    }
  }

  /** With no `:` before it, the placeholder after `prefix` is the first
      occurrence. */
  lemma PlaceholderFound(prefix: string, key: string, suffix: string)
    requires ':' !in prefix
    ensures var url := prefix + Placeholder(key) + suffix;
            IndexOf(url, Placeholder(key)) == Some(|prefix|)
            && url[..|prefix|] == prefix && url[|prefix| + |Placeholder(key)|..] == suffix
  {
    var url := prefix + Placeholder(key) + suffix;
    var pat := Placeholder(key);
    assert url[|prefix|..|prefix| + |pat|] == pat;
    assert OccursAt(url, pat, |prefix|);
    forall j | 0 <= j < |prefix|
      ensures !OccursAt(url, pat, j)
    {
      assert url[j] == prefix[j] != ':';
      if j + |pat| <= |url| {
        assert url[j..j + |pat|][0] == url[j];
      }
    }
    assert url[..|prefix|] == prefix;
    assert url[|prefix| + |pat|..] == suffix;
  }

  /** When `:` does not occur before the placeholder and the value holds no
      `$`, the first `:key` is replaced by the value text and everything after
      it, including any further `:key`, is kept. */
  lemma SubstituteFirst(prefix: string, key: string, suffix: string, value: ParamValue)
    requires ':' !in prefix && '$' !in ValueString(value)
    ensures Substitute(prefix + Placeholder(key) + suffix, key, value) == prefix + ValueString(value) + suffix
  {
    PlaceholderFound(prefix, key, suffix);
    ExpandPlain(ValueString(value), Placeholder(key), prefix, suffix);
  }

  /** The client's url for one student: the id's decimal text after the
      collection path. */
  lemma StudentUrl(id: int)
    ensures SubstituteAll(StudentPath, [("id", Num(id))]) == StudentsPath + "/" + IntString(id)
  {
    assert StudentPath == (StudentsPath + "/") + Placeholder("id") + "";
    SubstituteFirst(StudentsPath + "/", "id", "", Num(id));
    assert (StudentsPath + "/") + IntString(id) + "" == StudentsPath + "/" + IntString(id);
  }

  /** A path without `:` comes back unchanged, whatever the parameters. */
  lemma {:induction false} NoPlaceholderUnchanged(path: string, params: seq<(string, ParamValue)>)
    requires ':' !in path
    ensures SubstituteAll(path, params) == path
    decreases |params|
  {
    if |params| > 0 {
      var pat := Placeholder(params[0].0);
      forall j | 0 <= j && j + |pat| <= |path|
        ensures !OccursAt(path, pat, j)
      {
        assert path[j..j + |pat|][0] == path[j] != ':';
      }
      ContainsIffOccurs(path, pat);
      NoPlaceholderUnchanged(path, params[1..]);
    }
  }

  /** A `$&` value re-inserts the placeholder it replaces: `replace` reads
      the value as a replacement pattern. */
  lemma DollarValueKeepsPlaceholder(prefix: string, key: string, suffix: string)
    requires ':' !in prefix
    ensures Substitute(prefix + Placeholder(key) + suffix, key, Str("$&")) == prefix + Placeholder(key) + suffix
  {
    PlaceholderFound(prefix, key, suffix);
    var pat := Placeholder(key);
    assert ExpandReplacement("$&", pat, prefix, suffix) == pat + ExpandReplacement("", pat, prefix, suffix);
  }
}
