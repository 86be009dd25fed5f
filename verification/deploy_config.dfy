/**
 * `get_deployment_config`: the public base URL, the sub-folder the app is served under,
 * the ASGI root path and the CORS origins, derived from environment variables.
 * The environment is a map from variable name to value.
 */
module DeployConfig {
  import opened Text

  datatype Config = Config(
    baseUrl: string,
    subfolderPath: string,
    useSubfolder: bool,
    rootPath: string,
    corsOrigins: seq<string>)

  /** `os.getenv(name, default)` */
  function Getenv(env: map<string, string>, name: string, default: string): string {
    if name in env then env[name] else default
  }

  const DevFrontend: string := "http://localhost:5173"
  const LocalServer: string := "http://localhost:8000"

  predicate HasProtocol(url: string) {
    StartsWith(url, "http://") || StartsWith(url, "https://")
  }

  /** The hosts that get plain http: local names, port 80, and private address prefixes. */
  predicate LooksLocal(url: string) {
    || Contains(url, "localhost")
    || Contains(url, "127.0.0.1")
    || Contains(url, ":80")
    || StartsWith(url, "192.168.")
    || StartsWith(url, "10.")
    || StartsWith(url, "172.")
  }

  /** A sub-folder path is empty, or starts with "/" and does not end with "/". */
  predicate WellFormedSubfolder(p: string) {
    p == [] || (p[0] == '/' && p[|p| - 1] != '/')
  }

  /**
   * The path a sub-folder setting normalises to: a leading "/" added when missing, then
   * every trailing "/" removed. Empty stays empty.
   */
  function NormalizedPath(path: string): string {
    if path == [] then [] else RStripChar(if StartsWith(path, "/") then path else "/" + path, '/')
  }

  /** A plain folder name, with or without slashes around it, normalises to "/" and the name. */
  lemma NormalizedPathOfName(name: string)
    requires name != [] && name[0] != '/' && name[|name| - 1] != '/'
    ensures NormalizedPath(name) == "/" + name
    ensures NormalizedPath(name + "/") == "/" + name
    ensures NormalizedPath("/" + name + "/") == "/" + name
  {
    var a := "/" + name;
    assert !StartsWith(name + "/", "/") by { assert (name + "/")[0] == name[0]; }
    assert RStripChar(a, '/') == a;
    assert "/" + (name + "/") == a + "/";
    assert (a + "/")[..|a + "/"| - 1] == a;
  }

  /**
   * The sub-folder normalisation as written: add a leading "/", strip trailing "/"s, and
   * reset to the root deployment if the result is "/". The reset never fires, because
   * stripping leaves no trailing "/": a path of slashes only becomes "" and the flag stays.
   */
  method NormalizeSubfolderAsWritten(path: string, use: bool) returns (p: string, u: bool)
    ensures WellFormedSubfolder(p)
    ensures p == NormalizedPath(path) && u == use
    ensures path == [] ==> p == []
    ensures path != [] && (forall i :: 0 <= i < |path| ==> path[i] == '/') ==> p == []
  {
    p, u := path, use;
    if p != [] {
      if !StartsWith(p, "/") {
        p := "/" + p;
      }
      p := RStripChar(p, '/');
      if p == "/" {
        p := "";
        u := false;
      }
    }
  }

  /**
   * The sub-folder normalisation as its comment intends: a non-empty path that normalises
   * to the root turns the sub-folder flag off.
   */
  method NormalizeSubfolder(path: string, use: bool) returns (p: string, u: bool)
    ensures WellFormedSubfolder(p)
    ensures p == NormalizedPath(path)
    ensures u <==> use && (path == [] || p != [])
  {
    p, u := path, use;
    if p != [] {
      if !StartsWith(p, "/") {
        p := "/" + p;
      }
      p := RStripChar(p, '/');
      if p == "" {
        u := false;
      }
    }
  }

  /**
   * The base URL a stripped `PUBLIC_BASE_URL` `raw` gives: the local server when empty; a
   * URL with a protocol keeps it; otherwise http:// for a local-looking host and https://
   * for any other. Trailing "/"s are removed in every non-empty case.
   */
  function BaseUrlOf(raw: string): (url: string)
    ensures url != [] && url[|url| - 1] != '/'
    ensures raw == [] ==> url == LocalServer
  {
    if raw == [] then LocalServer
    else if HasProtocol(raw) then
      assert raw[0] == 'h';
      RStripChar(raw, '/')
    else if LooksLocal(raw) then
      assert ("http://" + raw)[0] == 'h';
      RStripChar("http://" + raw, '/')
    else
      assert ("https://" + raw)[0] == 'h';
      RStripChar("https://" + raw, '/')
  }

  /**
   * A URL that does not end in "/" keeps its protocol; a host without one gets http:// when
   * it looks local and https:// otherwise, and nothing else changes.
   */
  lemma BaseUrlOfHost(raw: string)
    requires raw != [] && raw[|raw| - 1] != '/'
    ensures HasProtocol(raw) ==> BaseUrlOf(raw) == raw
    ensures !HasProtocol(raw) && LooksLocal(raw) ==> BaseUrlOf(raw) == "http://" + raw
    ensures !HasProtocol(raw) && !LooksLocal(raw) ==> BaseUrlOf(raw) == "https://" + raw
  {
    var a := "http://" + raw;
    var b := "https://" + raw;
    assert a[|a| - 1] == raw[|raw| - 1] && b[|b| - 1] == raw[|raw| - 1];
  }

  /**
   * The base-URL normalisation: empty gives the local server; a URL without a protocol
   * gets http:// when it looks local and https:// otherwise; trailing "/"s are stripped.
   */
  method NormalizeBaseUrl(raw: string) returns (url: string)
    ensures url == BaseUrlOf(raw)
  {
    url := raw;
    if url != [] {
      if !HasProtocol(url) {
        if LooksLocal(url) {
          url := "http://" + url;
        } else {
          url := "https://" + url;
        }
      }
      assert url[0] == 'h';
      url := RStripChar(url, '/');
    } else {
      url := LocalServer;
    }
  }

  /** The CORS origins: the two development origins, then the base URL if it is neither. */
  method CorsOrigins(baseUrl: string) returns (cors: seq<string>)
    ensures cors == [DevFrontend, LocalServer] + (if baseUrl in [DevFrontend, LocalServer] || baseUrl == [] then [] else [baseUrl])
    ensures baseUrl != [] ==> baseUrl in cors
    ensures forall i, j :: 0 <= i < j < |cors| ==> cors[i] != cors[j]
  {
    assert DevFrontend != LocalServer by {
      assert DevFrontend[17] != LocalServer[17];
    }
    cors := [DevFrontend, LocalServer];
    if baseUrl != [] && baseUrl !in cors {
      cors := cors + [baseUrl];
    }
  }

  /**
   * No sub-folder is asked for: no `PUBLIC_SUBFOLDER_PATH`, `USE_SUBFOLDER` not "true"
   * (in any case), and no legacy `DEPLOYMENT_PATH` other than "/".
   */
  predicate RootDeployment(env: map<string, string>) {
    NoSubfolder(SubfolderSetting(env), FlagSetting(env), LegacySetting(env))
  }

  /** `PUBLIC_SUBFOLDER_PATH`, stripped. */
  function SubfolderSetting(env: map<string, string>): string {
    Strip(Getenv(env, "PUBLIC_SUBFOLDER_PATH", ""))
  }

  /** `USE_SUBFOLDER` is "true" in any case (default "false"). */
  predicate FlagSetting(env: map<string, string>) {
    Lower(Getenv(env, "USE_SUBFOLDER", "false")) == "true"
  }

  /** The legacy `DEPLOYMENT_PATH`, stripped. */
  function LegacySetting(env: map<string, string>): string {
    Strip(Getenv(env, "DEPLOYMENT_PATH", ""))
  }

  /** `PUBLIC_BASE_URL`, stripped. */
  function BaseUrlSetting(env: map<string, string>): string {
    Strip(Getenv(env, "PUBLIC_BASE_URL", ""))
  }

  /** The stripped settings ask for no sub-folder. */
  predicate NoSubfolder(subfolder: string, use: bool, legacy: string) {
    subfolder == [] && !use && (legacy == [] || legacy == "/")
  }

  /**
   * The sub-folder settings that stripped `PUBLIC_SUBFOLDER_PATH` `path`, flag `flag` and
   * stripped `DEPLOYMENT_PATH` `legacy` give. Without either newer setting, a legacy path
   * other than "" and "/" is normalised and switches the flag on. Otherwise the given path
   * is normalised and the flag is kept as given; a path of slashes gives "" with the flag
   * still on.
   */
  predicate SubfolderFrom(path: string, flag: bool, legacy: string, subfolder: string, use: bool) {
    if path == [] && !flag then
      if legacy != [] && legacy != "/" then subfolder == NormalizedPath(legacy) && use
      else subfolder == [] && !use
    else subfolder == NormalizedPath(path) && use == flag
  }

  /**
   * The sub-folder part of `get_deployment_config`, on the stripped `PUBLIC_SUBFOLDER_PATH`,
   * the `USE_SUBFOLDER` flag and the stripped legacy `DEPLOYMENT_PATH`: the legacy path is
   * used only when neither of the others is set, and never when it is "/".
   */
  method SubfolderSettings(path: string, flag: bool, legacy: string) returns (subfolder: string, use: bool)
    ensures WellFormedSubfolder(subfolder)
    ensures SubfolderFrom(path, flag, legacy, subfolder, use)
    ensures NoSubfolder(path, flag, legacy) ==> subfolder == [] && !use
  {
    subfolder, use := path, flag;
    if subfolder == [] && !use {
      if legacy != [] && legacy != "/" {
        subfolder := legacy;
        use := true;
      }
    }
    subfolder, use := NormalizeSubfolderAsWritten(subfolder, use);
  }

  /** The environment's sub-folder settings, stripped, then normalised by `SubfolderSettings`. */
  method EnvSubfolder(env: map<string, string>) returns (subfolder: string, use: bool)
    ensures WellFormedSubfolder(subfolder)
    ensures SubfolderFrom(SubfolderSetting(env), FlagSetting(env), LegacySetting(env), subfolder, use)
    ensures RootDeployment(env) ==> subfolder == [] && !use
  {
    subfolder, use := SubfolderSettings(SubfolderSetting(env), FlagSetting(env), LegacySetting(env));
  }

  /** The normalised `PUBLIC_BASE_URL` and the CORS origins derived from it. */
  method EnvUrls(env: map<string, string>) returns (baseUrl: string, cors: seq<string>)
    ensures baseUrl == BaseUrlOf(BaseUrlSetting(env))
    ensures cors == [DevFrontend, LocalServer] + (if baseUrl in [DevFrontend, LocalServer] then [] else [baseUrl])
  {
    baseUrl := NormalizeBaseUrl(BaseUrlSetting(env));
    cors := CorsOrigins(baseUrl);
  }

  /**
   * `get_deployment_config`: the normalised `PUBLIC_BASE_URL` (the local server when unset),
   * the sub-folder settings, the root path (the sub-folder when in use), and the CORS
   * origins, to which the base URL is added unless it is already one of the two defaults.
   */
  method GetDeploymentConfig(env: map<string, string>) returns (c: Config)
    ensures WellFormedSubfolder(c.subfolderPath)
    ensures c.rootPath == if c.useSubfolder then c.subfolderPath else ""
    ensures SubfolderFrom(SubfolderSetting(env), FlagSetting(env), LegacySetting(env), c.subfolderPath, c.useSubfolder)
    ensures c.baseUrl == BaseUrlOf(BaseUrlSetting(env))
    ensures c.corsOrigins == [DevFrontend, LocalServer] + (if c.baseUrl in [DevFrontend, LocalServer] then [] else [c.baseUrl])
    ensures RootDeployment(env) ==>
              c.subfolderPath == [] && !c.useSubfolder && c.rootPath == []
  {
    var subfolder, use := EnvSubfolder(env);
    var baseUrl, cors := EnvUrls(env);
    c := Config(baseUrl, subfolder, use, if use then subfolder else "", cors);
  }
}
