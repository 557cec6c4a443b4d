/** The policy engine in the place the server has for one. */
module Engines {
  import opened Pdata
  import opened Policies
  import opened TraceTypes
  import opened PolicyEngine
  import opened ServerSpec

  ghost function EngineJudge(lib: Lib): Judge {
    Judge(cfg => ConfigCompiles(lib, cfg),
        (cfg: Config, id: TraceId, spans: seq<FlatSpan>) => EvalStored(lib, cfg, id, spans))
  }

  lemma EngineEval(lib: Lib, cfg: Config, t: Trace)
    ensures Eval(EngineJudge(lib), cfg, t) == EvalStored(lib, cfg, t.id, t.spans)
  {
  }
}
