/**
 * The general linear-programming solver the sampler consults. Its
 * internals (a simplex implementation) are not part of this model: a solver
 * is any function from a problem to an answer, and every use of it below
 * holds for whatever answer it gives.
 */
module Solver {
  import opened LinAlg
  import opened Constraints

  datatype Direction = Maximize | Minimize

  /** What a solve returns: feasibility, the optimal value and an optimal point. */
  datatype SolverResult = SolverResult(feasible: bool, value: real, solution: Vector)

  /** A solve either reports an unbounded problem or returns a result. */
  datatype Answer = Unbounded | Solved(result: SolverResult)

  /** `solve(direction, objective, constraints)`. */
  type GLPSolver = (Direction, Vector, System) -> Answer
}
