/** `MakarychevAlgorithm`: its `__call__` and its live `build_tree` are,
    line for line, those of `EsfandiariAlgorithm` (and the live
    `build_tree` is that of IMM), so the solver is the same; the earlier,
    unfinished `build_tree` that the live one shadows does nothing
    observable. */
module Makarychev {
  import opened Wrappers
  import opened SolverInterface
  import opened TreeBuild
  import K = KMedPlusPlus
  import IMM
  import Esfandiari

  /** `MakarychevAlgorithm()(instance)`: the explainable solution of the
      tree grown by `find_split` from the pre-solution's clusters, paired
      with those clusters. */
  method Solve(inst: Instance, draws: seq<real>, fuel: nat)
    returns (r: Result<(ExplainableOutput, seq<Cluster>), Error>, ghost pre: CenterOutput, ghost t: Tree)
    requires ValidInstance(inst) && K.Draws(inst, draws)
    ensures |inst.points| == 0 ==> r == Failure(EmptyInstance)
    ensures IMM.Yields(inst, draws, fuel, pre, t, Esfandiari.Explained(r))
    ensures r.Success? ==> r.value.1 == Clusters(inst, pre.centers)
  {
    r, pre, t := Esfandiari.Solve(inst, draws, fuel);
  }
}
