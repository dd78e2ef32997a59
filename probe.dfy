/**
 * The network boundary. `requests.head(url, allow_redirects=True)` is
 * abstracted as a function from an address to what the request produced:
 * the status of the final response, or the message of the exception it
 * raised (connection failure, timeout, invalid address). What `check_url_exists`
 * makes of that, and which address a catalog line makes the scripts probe,
 * is modelled exactly.
 */
module Probe {
  import opened Optional
  import opened Strings
  import LinkPattern

  /** What one HEAD request produced. */
  datatype HeadResult = Response(status: int) | RequestFailed(message: string)

  /** The network: the HEAD result for each address. */
  type Network = string -> HeadResult

  /** The second half of `check_url_exists`'s result: a status code or an error text. */
  datatype Detail = Status(code: int) | Error(message: string)

  /** The pair `check_url_exists` returns. */
  datatype Verdict = Verdict(ok: bool, detail: Detail)

  /** `check_url_exists(url)`, given what the HEAD request to url produced. */
  function CheckUrlExists(result: HeadResult): (v: Verdict)
    ensures v.ok <==> result.Response? && 200 <= result.status < 300
    ensures result.Response? ==> v.detail == Status(result.status)
    ensures result.RequestFailed? ==> v.detail == Error(result.message)
  {
    match result
    case Response(code) => if 200 <= code < 300 then Verdict(true, Status(code)) else Verdict(false, Status(code))
    case RequestFailed(e) => Verdict(false, Error(e))
  }

  /** The manifest address answers with a 2xx status. */
  predicate Reachable(net: Network, address: string) {
    CheckUrlExists(net(address)).ok
  }

  /** The path appended to a repository address to find its package manifest. */
  const ManifestPath := "/blob/master/fpm.toml"

  /** `extracted_address + "/blob/master/fpm.toml"` */
  function ProbeAddress(target: string): (r: string)
    ensures |r| == |target| + |ManifestPath|
    ensures StartsWith(r, target)
    ensures r[|target|..] == ManifestPath
  {
    target + ManifestPath
  }

  /** The repository address a probe address was made from, if it was made by ProbeAddress. */
  function RepositoryOf(address: string): (r: Option<string>)
  {
    if |address| >= |ManifestPath| && address[|address| - |ManifestPath|..] == ManifestPath
    then Some(address[..|address| - |ManifestPath|])
    else None
  }

  /** RepositoryOf inverts ProbeAddress, in both directions. */
  lemma ProbeAddressRoundTrip(target: string, address: string)
    ensures RepositoryOf(ProbeAddress(target)) == Some(target)
    ensures RepositoryOf(address) == Some(target) ==> ProbeAddress(target) == address
  {
    var a := ProbeAddress(target);
    assert a[..|target|] == target;
    if RepositoryOf(address) == Some(target) {
      assert address == address[..|address| - |ManifestPath|] + address[|address| - |ManifestPath|..];
    }
  }

  /**
   * The condition under which a catalog line is reported: its link target
   * exists, is not empty (Python treats "" as false), and the manifest address
   * built from it answers with a 2xx status.
   */
  predicate HasFpmManifest(text: string, net: Network) {
    match LinkPattern.Target(text)
    case None => false
    case Some(target) => target != "" && Reachable(net, ProbeAddress(target))
  }
}
