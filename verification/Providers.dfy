/** An RPC provider's health record (providers/evm_provider.go). */
module Providers {
  import opened Scanner

  datatype ProviderStatus = Healthy | Unhealthy

  class EVMProvider {
    var failureCount: nat
    var status: ProviderStatus

    constructor ()
      ensures View() == Health(0, true)
    {
      failureCount, status := 0, Healthy;
    }

    function View(): Health
      reads this
    {
      Health(failureCount, status != Unhealthy)
    }

    predicate IsHealthy()
      reads this
    {
      status != Unhealthy
    }

    /** The first recorded failure already makes the provider unhealthy. */
    method RecordFailure()
      modifies this
      ensures View() == Fail(old(View()))
    {
      failureCount := failureCount + 1;
      if failureCount > 0 {
        status := Unhealthy;
      }
    }

    method Recover(answers: bool)
      modifies this
      ensures View() == if answers then Health(0, true) else old(View())
    {
      if !answers {
        return;
      }
      failureCount := 0;
      status := Healthy;
    }
  }

  function Views(ps: seq<EVMProvider>): (r: seq<Health>)
    reads ps
    ensures |r| == |ps|
    ensures forall i :: 0 <= i < |ps| ==> r[i] == ps[i].View()
  {
    seq(|ps|, i requires 0 <= i < |ps| reads ps => ps[i].View())
  }
}
