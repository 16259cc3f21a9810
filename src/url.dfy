/** A parsed URL as the record of components of section 4.1 (URL
    representation) of the WHATWG URL Standard, with the setters the
    gateway uses. Parsing and serialisation are not modelled. */
module Url {

  /** `protocol` keeps its trailing ':', `search` its '?', `hash` its '#';
      `port` is empty when the URL has no port (or the scheme's default). */
  datatype Url = Url(
    protocol: string,
    username: string,
    password: string,
    hostname: string,
    port: string,
    pathname: string,
    search: string,
    hash: string)
  {
    /** The `host` getter: hostname, then ':' and the port when there is one. */
    function Host(): string {
      if port == [] then hostname else hostname + ":" + port
    }
  }

  /** `url.host = other.host`: the host string carries the other URL's
      hostname and, only when it has one, its port; a host string without
      a port leaves the port as it was. */
  function WithHostOf(url: Url, other: Url): (r: Url)
    ensures r.hostname == other.hostname
    ensures other.port != [] ==> r.port == other.port && r.Host() == other.Host()
    ensures other.port == [] ==> r.port == url.port
    ensures r.(hostname := url.hostname, port := url.port) == url
  {
    url.(hostname := other.hostname, port := if other.port == [] then url.port else other.port)
  }

  /** `url.port = other.port`: an empty string removes the port. */
  function WithPortOf(url: Url, other: Url): (r: Url)
    ensures r.port == other.port
    ensures r.(port := url.port) == url
  {
    url.(port := other.port)
  }
}
