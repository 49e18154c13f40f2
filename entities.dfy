/**
 * The finding records every exporter receives from the report parser:
 * hosts, ports and vulnerabilities, reduced to the fields the shared
 * summary logic and the small formatting helpers read.
 */
module Entities {

  /** The five severity levels an exporter knows, in the order the
      summary sheets list them (`level_choices` in `_get_collections`). */
  datatype Level = Critical | High | Medium | Low | None

  /** Position of a level in the per-level list of affected IPs:
      critical 0, high 1, medium 2, low 3, none 4. */
  function LevelIndex(l: Level): (i: nat)
    ensures i < 5
  {
    match l
    case Critical => 0
    case High => 1
    case Medium => 2
    case Low => 3
    case None => 4
  }

  /** Different levels never share a list. */
  lemma LevelIndexInjective(l: Level, m: Level)
    ensures LevelIndex(l) == LevelIndex(m) ==> l == m
  {
  }

  /** A port a finding was reported on; number 0 means "no specific port". */
  datatype Port = Port(number: nat, protocol: string, result: string)

  /** One occurrence of a vulnerability: the affected host's IP, and the
      port it was seen on when the scanner reported one. */
  datatype Occurrence = Occurrence(ip: string, hostName: string, port: PortOrNone)

  datatype PortOrNone = NoPort | SomePort(port: Port)

  /** A CVSS score in tenths: -10 is the "no CVSS" sentinel -1.0 and
      100 is 10.0. The summary logic only ever compares scores. */
  type Cvss = int

  datatype Vulnerability = Vulnerability(
    name: string,
    family: string,
    cvss: Cvss,
    level: Level,
    cves: seq<string>,
    hosts: seq<Occurrence>)

  /** The Python exceptions the modelled code can raise. */
  datatype PyError = TypeError | ValueError | NotImplementedError | AttributeError | IndexError

  /** The outcome of a Python computation: a value, or a raised exception. */
  datatype Outcome<T> = Ok(value: T) | Raised(error: PyError)
}
