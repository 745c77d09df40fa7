/**
 * The data model shared by the benchmark selector, the curve bracket finder
 * and the reporters: a parsed bond row and the failures the core can raise.
 */
module Bonds {

  /** One parsed row: the bond's name, its term in years and its yield in percent. */
  datatype Bond = Bond(name: string, term: real, yld: real)

  /** The ways the core stops. */
  datatype Error =
    | NotANumber           // float() rejects the numeric prefix of a term or yield cell
    | EmptyGovernmentTable // idxmin over an empty difference column in find_best_benchmark
    | NoUpperBracket       // idxmin over the empty "difference >= 0" side of closest_to_corp
    | NoLowerBracket       // idxmin over the empty "difference < 0" side of closest_to_corp
    | DegenerateBracket    // division by zero in linear_interpolation

  function Abs(x: real): real {
    if x < 0.0 then -x else x
  }

  function Min(x: real, y: real): real {
    if x <= y then x else y
  }

  function Max(x: real, y: real): real {
    if x <= y then y else x
  }

  /** The column `government_bonds['term'] - corporate_term`, one entry per row. */
  function Differences(govs: seq<Bond>, t: real): seq<real> {
    seq(|govs|, i requires 0 <= i < |govs| => govs[i].term - t)
  }

  /** The column `(government_bonds['term'] - corporate_term).abs()`. */
  function Distances(govs: seq<Bond>, t: real): seq<real> {
    seq(|govs|, i requires 0 <= i < |govs| => Abs(govs[i].term - t))
  }
}
