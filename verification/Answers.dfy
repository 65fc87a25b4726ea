/** What the server makes of a request (rpc_src/network/message_cycle.cpp, rpc_src/core/error_code.h). */
module Answers {
  import opened Bytes
  import opened Protocol
  import Cipher

  const SUCCESS: u32 := 0
  const SERVICE_NOT_FOUND: u32 := 3000
  const INVALID_REQUEST: u32 := 6000

  /** `outcome` is what the registered service made of the call, `None` if there is none or it failed. */
  function Answer(r: Request, outcome: Option<seq<byte>>): Response {
    if r.service == [] || r.procedure == [] then
      Response(r.sequenceId, INVALID_REQUEST, [], Cipher.ToBytes("Invalid request"))
    else if outcome.None? then
      Response(r.sequenceId, SERVICE_NOT_FOUND, [], Cipher.ToBytes("Service not found"))
    else
      Response(r.sequenceId, SUCCESS, outcome.value, Cipher.ToBytes("Success"))
  }

  /**
   What the client is promised: its own sequence id, and one of three answers.  Without a service or method
   name 6000, without an outcome 3000, both with no data; else 0 and what the service returned.
   */
  predicate AnswersTo(r: Request, outcome: Option<seq<byte>>, p: Response) {
    && p.sequenceId == r.sequenceId
    && (r.service == [] || r.procedure == [] ==>
          p.errorCode == 6000 && p.result == [] && p.message == Cipher.ToBytes("Invalid request"))
    && (r.service != [] && r.procedure != [] && outcome.None? ==>
          p.errorCode == 3000 && p.result == [] && p.message == Cipher.ToBytes("Service not found"))
    && (r.service != [] && r.procedure != [] && outcome.Some? ==>
          p.errorCode == 0 && p.result == outcome.value && p.message == Cipher.ToBytes("Success"))
  }

  lemma AnswerExactly(r: Request, outcome: Option<seq<byte>>, p: Response)
    ensures AnswersTo(r, outcome, p) <==> p == Answer(r, outcome)
  {
    hide Cipher.ToBytes;
  }
}
