/** The forecast request URL: a fixed endpoint followed by the stop identifier. */
module ForecastRequest {
  import opened Wrappers

  /**
   * The forecast endpoint, ending in `?id=`. The stop identifier is appended
   * as it is, without URL encoding.
   */
  const LUAS_API_BASE: string := "https://luasforecasts.rpa.ie/analysis/view.aspx?id="

  /** The stop whose forecast the service requests once at start-up. */
  const STARTUP_STOP: string := "1"

  /** The URL requested for a stop: the base is its prefix, the identifier its suffix. */
  function RequestUrl(stopId: string): (url: string)
    ensures |url| == |LUAS_API_BASE| + |stopId|
    ensures LUAS_API_BASE <= url
    ensures url[|LUAS_API_BASE|..] == stopId
  {
    LUAS_API_BASE + stopId
  }

  /**
   * The text after the endpoint prefix, if the URL starts with the endpoint.
   * This is the identifier `RequestUrl` appended; for an identifier holding
   * `&`, `#` or `%` it is not what the endpoint reads as its `id` parameter.
   */
  function StopIdOf(url: string): (r: Option<string>)
    ensures r.Some? <==> LUAS_API_BASE <= url
    ensures r.Some? ==> RequestUrl(r.value) == url
  {
    if LUAS_API_BASE <= url then Some(url[|LUAS_API_BASE|..]) else None
  }

  /** Round trip: the identifier is recovered from the URL built for it. */
  lemma StopIdOfRequestUrl(stopId: string)
    ensures StopIdOf(RequestUrl(stopId)) == Some(stopId)
  {
  }

  /** Distinct stops are requested at distinct URLs. */
  lemma RequestUrlInjective(a: string, b: string)
    requires RequestUrl(a) == RequestUrl(b)
    ensures a == b
  {
    StopIdOfRequestUrl(a);
    StopIdOfRequestUrl(b);
  }

  /** The start-up request asks for stop "1". */
  lemma StartupRequest()
    ensures StopIdOf(RequestUrl(STARTUP_STOP)) == Some("1")
    ensures RequestUrl(STARTUP_STOP) == "https://luasforecasts.rpa.ie/analysis/view.aspx?id=1"
  {
    StopIdOfRequestUrl(STARTUP_STOP);
  }
}
