/**
 * The optional MQTT bridge: which decoded payloads reach `ingest`, and how
 * `MQTT_BROKER_URL` becomes the host and port the client connects to.
 */
module Mqtt {
  import opened Wrappers
  import opened PyStr
  import opened Alerts

  /**
   * The feature record a payload yields. `decoded` is the result of UTF-8
   * and JSON decoding (`None` when either raised); only a JSON object is a
   * feature record.
   */
  function PayloadFeatures(decoded: Option<Json>): (f: Option<Features>)
    ensures f.Some? <==> decoded.Some? && decoded.value.Object?
    ensures f.Some? ==> decoded.value == Object(f.value)
  {
    match decoded
    case Some(Object(members)) => Some(members)
    case _ => None
  }

  /** Why `_start_mqtt` raised: the unpacking of `split(":")` or `int(port)`. */
  datatype StartError = WrongPartCount(parts: nat) | PortNotInteger(text: string)

  /**
   * What `_start_mqtt` does: nothing at all, connect to `host:port`, or
   * raise during start-up.
   */
  datatype BrokerStart = Inert | Connect(host: string, port: int) | Fails(error: StartError)

  const TcpScheme: string := "tcp://"

  /**
   * The broker start-up decision. `url` is `MQTT_BROKER_URL` (`None` when
   * unset) and `clientInstalled` says whether `paho.mqtt` imported. An
   * unset or empty URL, a missing client or a URL without the `tcp://`
   * prefix starts nothing; otherwise the rest of the URL is the address.
   */
  function StartMqtt(url: Option<string>, clientInstalled: bool): (r: BrokerStart)
    ensures r.Inert? <==> url == None || url == Some([]) || !clientInstalled || !(TcpScheme <= url.value)
    ensures !r.Inert? ==> TcpScheme <= url.value && r == BrokerAddress(url.value[|TcpScheme|..])
  {
    if url == None || url == Some([]) || !clientInstalled then Inert
    else if !(TcpScheme <= url.value) then Inert
    else BrokerAddress(url.value[|TcpScheme|..])
  }

  /**
   * `host, port = rest.split(":")`, then `host.strip()` and `int(port)`:
   * the address must contain exactly one `:`; the host is the stripped
   * part before it and the port the integer after it.
   */
  function BrokerAddress(rest: string): (r: BrokerStart)
    ensures !r.Inert?
    ensures r.Fails? && r.error.WrongPartCount? ==> r.error.parts == Count(rest, ':') + 1 != 2
    ensures Count(rest, ':') != 1 ==> r == Fails(WrongPartCount(Count(rest, ':') + 1))
    ensures r.Connect? ==> Count(rest, ':') == 1 && ':' !in r.host && IsStripped(r.host)
  {
    var parts := Split(rest, ':');
    if |parts| != 2 then Fails(WrongPartCount(|parts|))
    else
      match ParseInt(parts[1])
      case None => Fails(PortNotInteger(parts[1]))
      case Some(port) => Connect(Strip(parts[0]), port)
  }

  /**
   * An address with exactly one `:` connects to the stripped text before it
   * and the integer after it, or fails on that port text.
   */
  lemma BrokerAddressParts(host: string, port: string)
    requires ':' !in host && ':' !in port
    ensures BrokerAddress(host + [':'] + port) ==
      if ParseInt(port).Some? then Connect(Strip(host), ParseInt(port).value) else Fails(PortNotInteger(port))
  {
    var parts := Split(host + [':'] + port, ':');
    assert parts == [host, port] by {
      SplitAtFirst(host, ':', port);
      SplitNoSeparator(port, ':');
    }
  }

  /** A stripped host without `:` and a port written in decimal are read back exactly. */
  lemma BrokerAddressRoundTrip(host: string, port: nat)
    requires ':' !in host && IsStripped(host) && |ShowNat(port)| <= MaxStrDigits
    ensures BrokerAddress(host + [':'] + ShowNat(port)) == Connect(host, port)
  {
    var digits := ShowNat(port);
    assert ':' !in digits by {
      assert forall k :: 0 <= k < |digits| ==> IsDigit(digits[k]);
    }
    BrokerAddressParts(host, digits);
    ParseIntShowNat(port);
    StripStripped(host);
  }

  /** With the client installed, a `tcp://` URL is decided by its address part alone. */
  lemma StartMqttTcp(rest: string)
    ensures StartMqtt(Some(TcpScheme + rest), true) == BrokerAddress(rest)
  {
    var url := TcpScheme + rest;
    assert TcpScheme <= url;
    assert url[|TcpScheme|..] == rest;
  }

  /** The same through the whole start-up decision, for a URL `tcp://host:port`. */
  lemma StartMqttRoundTrip(host: string, port: nat)
    requires ':' !in host && IsStripped(host) && |ShowNat(port)| <= MaxStrDigits
    ensures StartMqtt(Some(TcpScheme + (host + [':'] + ShowNat(port))), true) == Connect(host, port)
  {
    var rest := host + [':'] + ShowNat(port);
    assert StartMqtt(Some(TcpScheme + rest), true) == BrokerAddress(rest) by {
      StartMqttTcp(rest);
    }
    assert BrokerAddress(rest) == Connect(host, port) by {
      BrokerAddressRoundTrip(host, port);
    }
  }
}
