/** The metadata limit that is sent to Prometheus. */
module Limits {
  import opened Text

  function AtLeastZero(n: int): (r: nat)
    ensures r >= n && (r == n || r == 0)
  {
    if n < 0 then 0 else n
  }

  /** The limit a metadata call asks for: its own, or the global one if it names none; negative
      means unlimited, as does zero. An error if the text is not a 64-bit number. */
  function RequestedLimit(limit: string, truncationLimit: Int64): Result<nat> {
    if limit == "" then Ok(if truncationLimit < 0 then 0 else truncationLimit)
    else
      match Atoi(limit)
      case Err => Err
      case Ok(n) => Ok(if n < 0 then 0 else n)
  }

  /** The normalisation in `metricMetadataAPICall` and `targetsMetadataAPICall`: the limit text
      that is sent, and its value. What is sent is empty if and only if the effective limit is 0,
      and otherwise reads back as that positive limit. */
  method NormalizeLimit(limit: string, truncationLimit: Int64) returns (sent: string, limitInt: int, ok: bool)
    ensures ok <==> RequestedLimit(limit, truncationLimit).Ok?
    ensures ok ==> limitInt == RequestedLimit(limit, truncationLimit).value
    ensures ok ==> (sent == "" <==> limitInt == 0)
    ensures ok && sent != "" ==> Atoi(sent) == Ok(limitInt) && limitInt > 0
    ensures ok && limit != "" && sent != "" ==> sent == limit
    ensures ok <==> limit == "" || Atoi(limit).Ok?
    ensures ok && limit == "" ==>
      && limitInt == AtLeastZero(truncationLimit)
      && sent == if truncationLimit > 0 then Itoa(truncationLimit) else ""
    ensures ok && limit != "" ==>
      && limitInt == AtLeastZero(Atoi(limit).value)
      && sent == if Atoi(limit).value > 0 then limit else ""
  {
    sent := limit;
    if sent == "" && truncationLimit != 0 {
      AtoiOfItoa(truncationLimit);
      sent := Itoa(truncationLimit);
    }
    limitInt := 0;
    if sent != "" {
      var n := Atoi(sent);
      if n.Err? {
        return sent, 0, false;
      }
      var v := n.value;
      if v < 0 {
        v := 0;
      }
      limitInt := v;
    }
    if limitInt == 0 {
      sent := "";
    }
    ok := true;
  }

  /** A global limit survives being printed and read back on its way to Prometheus. */
  lemma GlobalLimitIsSent(truncationLimit: Int64)
    ensures RequestedLimit("", truncationLimit) == RequestedLimit(Itoa(truncationLimit), truncationLimit)
    ensures RequestedLimit("", truncationLimit) == Ok(AtLeastZero(truncationLimit))
  {
    AtoiOfItoa(truncationLimit);
  }
}
