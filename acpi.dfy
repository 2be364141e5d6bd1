/** The firmware side of the protocol: the objects an ACPI method evaluation
    hands back, and the WMI transport that carries one request to the
    firmware and returns its reply. The transport is a stub that records
    every request it is given and answers from a script of replies, so that
    the order and number of exchanges a command makes can be stated. */
module Acpi {
  import opened Bytes

  /** The vendor WMI interface every exchange targets. */
  const WMI_GUID: string := "C16C47BA-50E3-444A-AF3A-B1C348380001"
  /** `wmi_evaluate_method(WMI_GUID, 1, 0, ...)`: instance 1, method id 0. */
  const WMI_INSTANCE: nat := 1
  const WMI_METHOD_ID: nat := 0

  /** ACPI status codes: zero is success, anything else a failure. */
  const AE_OK: nat := 0
  const AE_ERROR: nat := 1
  type AcpiFailure = s: nat | s != AE_OK witness AE_ERROR

  /** The object an ACPI evaluation allocates for its result. Only a buffer
      carries a response packet. */
  datatype AcpiObject =
    | AcpiInteger(value: nat)
    | AcpiString(text: string)
    | AcpiBuffer(bytes: seq<uint8>)
    | AcpiPackage(elements: seq<AcpiObject>)

  /** What one `wmi_evaluate_method` call returns: a failure status, or
      success with the result object. */
  datatype Reply = Failed(status: AcpiFailure) | Evaluated(obj: AcpiObject)

  /** One request as the transport sees it: the interface, instance and
      method it is addressed to, and the input buffer. */
  datatype WmiRequest = WmiRequest(guid: string, instance: nat, methodId: nat, input: seq<uint8>)

  /** The reply the firmware gives next; a stub whose script has run out
      reports a failure status. */
  function NextReply(script: seq<Reply>): (r: Reply)
    ensures script != [] ==> r == script[0]
    ensures script == [] ==> r.Failed?
  {
    if script == [] then Failed(AE_ERROR) else script[0]
  }

  /** The script left after one exchange. */
  function RestOf(script: seq<Reply>): (rest: seq<Reply>)
    ensures script != [] ==> [script[0]] + rest == script
    ensures script == [] ==> rest == []
  {
    if script == [] then [] else script[1..]
  }

  class Transport {
    /** Every request made so far, oldest first. */
    var log: seq<WmiRequest>
    /** The replies still to be given, in order. */
    var script: seq<Reply>

    constructor (replies: seq<Reply>)
      ensures log == [] && script == replies
    {
      log := [];
      script := replies;
    }

    /** One request/response exchange with the firmware. */
    method Evaluate(guid: string, instance: nat, methodId: nat, input: seq<uint8>) returns (reply: Reply)
      modifies this
      ensures log == old(log) + [WmiRequest(guid, instance, methodId, input)]
      ensures reply == NextReply(old(script)) && script == RestOf(old(script))
    {
      log := log + [WmiRequest(guid, instance, methodId, input)];
      reply := NextReply(script);
      script := RestOf(script);
    }
  }
}
