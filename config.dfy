/** The fields of a Yumfile repository that Repo.Validate inspects. */
module Config {
  import opened Wrappers

  datatype Repo = Repo(
    id: string,
    baseURL: string,
    mirrorURL: string,
    gpgCheck: bool,
    yumfilePath: string,
    yumfileLineNo: int)

  /** The two syntax errors; both carry the Yumfile location of the repository. */
  datatype ConfigError =
    | NoID(path: string, line: int)
    | NoSource(id: string, path: string, line: int)

  /** Returns the first syntax error of the repository, or None when it is valid. */
  function Validate(c: Repo): (err: Option<ConfigError>)
    ensures err.None? <==> c.id != "" && (c.mirrorURL != "" || c.baseURL != "")
    ensures err.Some? && err.value.NoID? <==> c.id == ""
    ensures err.Some? && err.value.NoSource? <==> c.id != "" && c.mirrorURL == "" && c.baseURL == ""
    ensures err.Some? ==> err.value.path == c.yumfilePath && err.value.line == c.yumfileLineNo
    ensures err.Some? && err.value.NoSource? ==> err.value.id == c.id
  {
    if c.id == "" then Some(NoID(c.yumfilePath, c.yumfileLineNo))
    else if c.mirrorURL == "" && c.baseURL == "" then Some(NoSource(c.id, c.yumfilePath, c.yumfileLineNo))
    else None
  }
}
