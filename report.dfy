/** `send_to_n8n`: the payload posted for one day. */
module Report {
  import opened Extraction

  /** The JSON payload: the day, the number of records, the revenue, and the
      records themselves. */
  datatype Payload = Payload(date: string, totalRdvs: int, caTotal: real, rdvs: seq<Record>)

  /** The revenue of a list of records: the sum of their prices. */
  function Total(rdvs: seq<Record>): real
    decreases |rdvs|
  {
    if rdvs == [] then 0.0 else rdvs[0].prix + Total(rdvs[1..])
  }

  /** Python's `sum` over the prices: a running total, added left to right. */
  function SumFrom(acc: real, rdvs: seq<Record>): real
    decreases |rdvs|
  {
    if rdvs == [] then acc else SumFrom(acc + rdvs[0].prix, rdvs[1..])
  }

  /** The running total ends at the start value plus the revenue. */
  lemma {:induction false} SumFromTotal(acc: real, rdvs: seq<Record>)
    ensures SumFrom(acc, rdvs) == acc + Total(rdvs)
    decreases |rdvs|
  {
    if rdvs != [] {
      SumFromTotal(acc + rdvs[0].prix, rdvs[1..]);
    }
  }

  /** The payload for `rdvs` on `date`: its count is the number of records,
      its revenue the sum of their prices, and the records pass through
      unchanged and in order. */
  function MakePayload(rdvs: seq<Record>, date: string): (p: Payload)
    ensures p.date == date && p.rdvs == rdvs
    ensures p.totalRdvs == |rdvs| && p.caTotal == Total(rdvs)
  {
    SumFromTotal(0.0, rdvs);
    Payload(date, |rdvs|, SumFrom(0.0, rdvs), rdvs)
  }

  /** The revenue of two lists of records together is the sum of theirs. */
  lemma {:induction false} TotalAppend(a: seq<Record>, b: seq<Record>)
    ensures Total(a + b) == Total(a) + Total(b)
    decreases |a|
  {
    if a == [] {
      assert a + b == b;
    } else {
      assert (a + b)[1..] == a[1..] + b;
      TotalAppend(a[1..], b);
    }
  }

  /** With no negative price the revenue is not negative. */
  lemma {:induction false} TotalNonNegative(rdvs: seq<Record>)
    requires forall i :: 0 <= i < |rdvs| ==> rdvs[i].prix >= 0.0
    ensures Total(rdvs) >= 0.0
    decreases |rdvs|
  {
    if rdvs != [] {
      TotalNonNegative(rdvs[1..]);
    }
  }

  /** The empty report: no records and no revenue. */
  lemma EmptyPayload(date: string)
    ensures MakePayload([], date) == Payload(date, 0, 0.0, [])
  {
  }
}
