/** The vocabulary both tiers report in. */
module Verdicts {

  datatype Verdict = Safe | Leak | Unattributable

  datatype Result = Result(verdict: Verdict, tenant: string, withheldRows: nat, vacuous: bool)

  const UNATTRIBUTABLE := Result(Unattributable, "", 0, false)
}
