/** SelectServerIP of pkg/netutils/ip.go. */
module NetUtils {
  import opened Wrappers
  import opened Errors

  /** The IP the server answers on when it runs in its container. */
  const DefaultContainerServerIP: string := "172.18.0.22"
  /** The IP the server answers on when it runs directly on the host. */
  const DefaultHostServerIP: string := "127.0.0.1"

  /** The two configuration fields SelectServerIP reads (config.Config holds
      them behind pointers; a nil pointer is not modelled). */
  datatype Config = Config(serverIP: string, runOnHost: bool)

  /** SelectServerIP: a configured IP other than the container default is
      used as it is, once it parses; the container default becomes the host
      default when the server runs on the host. The result is Go's
      `(string, error)` pair; `isIP` is `net.ParseIP(s) != nil`. */
  function SelectServerIP(isIP: string -> bool, cfg: Config): (r: (string, Option<Error>))
    ensures r.1.Some? <==> cfg.serverIP != DefaultContainerServerIP && !isIP(cfg.serverIP)
    ensures r.1.Some? ==> r.0 == "" && r.1.value == InvalidServerIP(cfg.serverIP)
    ensures cfg.serverIP != DefaultContainerServerIP && r.1.None? ==> r.0 == cfg.serverIP
    ensures cfg.serverIP == DefaultContainerServerIP ==>
      r.0 == (if cfg.runOnHost then DefaultHostServerIP else DefaultContainerServerIP)
  {
    if cfg.serverIP != DefaultContainerServerIP then
      var ip := cfg.serverIP;
      if !isIP(ip) then ("", Some(InvalidServerIP(ip))) else (ip, None)
    else if cfg.runOnHost then (DefaultHostServerIP, None)
    else (DefaultContainerServerIP, None)
  }

  /** Only a custom IP is validated; when the two defaults parse, every IP
      selected without error parses. */
  lemma SelectedIPParses(isIP: string -> bool, cfg: Config)
    requires isIP(DefaultContainerServerIP) && isIP(DefaultHostServerIP)
    ensures SelectServerIP(isIP, cfg).1.None? ==> isIP(SelectServerIP(isIP, cfg).0)
  {
  }

  /** The default is never rejected, whatever `net.ParseIP` says of it. */
  lemma DefaultNeverFails(isIP: string -> bool, runOnHost: bool)
    ensures SelectServerIP(isIP, Config(DefaultContainerServerIP, runOnHost)).1.None?
  {
  }
}
