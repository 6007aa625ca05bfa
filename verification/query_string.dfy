/**
  A split-only reader for URL search strings such as
  `?district=7&name=North`: drop the leading `?`, split at `&`, and cut each
  part at its first `=`. It decodes nothing: percent-escapes and `+` are
  left as they are. The round trip of the district list's navigation link
  is proved against this reader.
 */
module QueryString {
  import opened Optional
  import Text

  /** One `key=value` part; a part without `=` has an empty value. */
  function Param(part: string): (kv: (string, string))
    ensures '=' !in kv.0
  {
    Text.SplitFirst(part, '=')
  }

  /** The key/value pairs of a search string, in order of appearance. */
  function Params(search: string): (ps: seq<(string, string)>)
    ensures |ps| >= 1
  {
    var body := if |search| > 0 && search[0] == '?' then search[1..] else search;
    var parts := Text.Split(body, '&');
    seq(|parts|, i requires 0 <= i < |parts| => Param(parts[i]))
  }

  /** The value of the first pair whose key is `key`. */
  function Lookup(ps: seq<(string, string)>, key: string): (r: Option<string>)
    ensures r.Some? <==> exists i :: 0 <= i < |ps| && ps[i].0 == key
    ensures r.Some? ==> exists i :: 0 <= i < |ps| && ps[i] == (key, r.value)
    decreases |ps|
  {
    if |ps| == 0 then None
    else if ps[0].0 == key then Some(ps[0].1)
    else
      var r := Lookup(ps[1..], key);
      assert forall i :: 1 <= i < |ps| ==> ps[i] == ps[1..][i - 1];
      r
  }
}
