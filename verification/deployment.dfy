/** Locating the deployed chequebook in the factory's transaction receipt:
    the receipt's logs are scanned in order, the first one that parses as a
    `SimpleSwapDeployed` event supplies the contract address, and the zero
    address, which is also what is left when no log parses, means failure.

    Event parsing is foreign code; each log enters as the result of parsing
    it: `Some(contractAddress)` or `None`. */
module Deployment {
  import opened Wrappers
  import opened Bytes

  datatype DeployError = DeploymentFailed   // "contract deployment failed"

  const ZeroAddress: Address := Zeros(20)

  /** Log i is the first that parses. */
  predicate IsFirstParsed(logs: seq<Option<Address>>, i: int)
  {
    && 0 <= i < |logs|
    && logs[i].Some?
    && forall j :: 0 <= j < i ==> logs[j].None?
  }

  predicate NoneParses(logs: seq<Option<Address>>)
  {
    forall i :: 0 <= i < |logs| ==> logs[i].None?
  }

  /** The address carried by the first log that parses. */
  function FirstParsed(logs: seq<Option<Address>>): (r: Option<Address>)
    ensures r.None? <==> NoneParses(logs)
    ensures r.Some? ==> exists i :: IsFirstParsed(logs, i) && logs[i] == r
  {
    if logs == [] then None
    else if logs[0].Some? then
      assert IsFirstParsed(logs, 0);
      logs[0]
    else
      var r := FirstParsed(logs[1..]);
      assert NoneParses(logs[1..]) ==> NoneParses(logs) by {
        if NoneParses(logs[1..]) {
          forall i | 0 <= i < |logs| ensures logs[i].None? {
            if i > 0 { assert logs[i] == logs[1..][i - 1]; }
          }
        }
      }
      assert r.Some? ==> exists i :: IsFirstParsed(logs, i) && logs[i] == r by {
        if r.Some? {
          var i :| IsFirstParsed(logs[1..], i) && logs[1..][i] == r;
          assert IsFirstParsed(logs, i + 1);
        }
      }
      r
  }

  /** The outcome of the selection: the first parsed address unless there
      is none or it is the zero address. */
  function DeployedAddress(logs: seq<Option<Address>>): (r: Result<Address, DeployError>)
    ensures r.Success? <==> exists i :: IsFirstParsed(logs, i) && logs[i].value != ZeroAddress
    ensures r.Success? ==> exists i :: IsFirstParsed(logs, i) && logs[i].value == r.value
  {
    match FirstParsed(logs)
    case Some(address) =>
      FirstParsedUnique(logs);
      if address == ZeroAddress then Failure(DeploymentFailed) else Success(address)
    case None => Failure(DeploymentFailed)
  }

  lemma FirstParsedUnique(logs: seq<Option<Address>>)
    ensures forall i, j :: IsFirstParsed(logs, i) && IsFirstParsed(logs, j) ==> i == j
  {
  }

  /** The loop as written: start from the zero address, stop at the first
      log that parses, and fail if the address is still zero. */
  method SelectDeployedAddress(logs: seq<Option<Address>>) returns (r: Result<Address, DeployError>)
    ensures r == DeployedAddress(logs)
  {
    var address := ZeroAddress;
    var i := 0;
    while i < |logs|
      invariant 0 <= i <= |logs|
      invariant forall j :: 0 <= j < i ==> logs[j].None?
      invariant address == ZeroAddress
    {
      if logs[i].Some? {
        address := logs[i].value;
        assert IsFirstParsed(logs, i);
        break;
      }
      i := i + 1;
    }
    if address == ZeroAddress {
      r := Failure(DeploymentFailed);
    } else {
      r := Success(address);
    }
  }

  /** Logs after the first one that parses are never looked at, even when
      they also parse (possibly to a different address). */
  lemma {:induction false} LaterLogsIgnored(logs: seq<Option<Address>>, more: seq<Option<Address>>)
    requires !NoneParses(logs)
    ensures FirstParsed(logs + more) == FirstParsed(logs)
    ensures DeployedAddress(logs + more) == DeployedAddress(logs)
  {
    if logs[0].None? {
      assert (logs + more)[1..] == logs[1..] + more;
      assert !NoneParses(logs[1..]) by {
        var i :| 0 <= i < |logs| && logs[i].Some?;
        assert logs[1..][i - 1] == logs[i];
      }
      LaterLogsIgnored(logs[1..], more);
    }
  }
}
