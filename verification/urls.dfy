/** Normalisation of the password-manager link a user stores (`clean_url`). */
module Urls {
  import opened Wrappers
  import opened Text

  predicate HasScheme(url: string) {
    "http://" <= url || "https://" <= url
  }

  /** `clean_url(value)`: `None`, empty and all-whitespace input give `""`;
      anything else is stripped and given `https://` unless it already
      starts with `http://` or `https://`. */
  function CleanUrl(value: Option<string>): (r: string)
    ensures r == "" <==> value.None? || AllSpace(value.value)
    ensures r != "" ==> HasScheme(r) && Strip(r) == r
    ensures r != "" ==> r == Strip(value.value) || r == "https://" + Strip(value.value)
    ensures r != "" && HasScheme(Strip(value.value)) ==> r == Strip(value.value)
  {
    var url := if value.None? then "" else Strip(value.value);
    if url == "" then ""
    else if HasScheme(url) then
      StripUnchanged(url);
      url
    else
      var full := "https://" + url;
      NotSpace('h');
      assert full[|full| - 1] == url[|url| - 1];
      StripUnchanged(full);
      full
  }

  /** Cleaning an already clean link changes nothing. */
  lemma CleanUrlIdempotent(value: Option<string>)
    ensures CleanUrl(Some(CleanUrl(value))) == CleanUrl(value)
  {
    var r := CleanUrl(value);
    if r == "" {
      assert AllSpace(r);
    } else {
      assert !AllSpace(r) by {
        assert !IsSpace(r[0]);
      }
    }
  }
}
