/** The failures the core reports to its callers instead of throwing. */
module CycErrors {

  import opened Nuclides

  datatype CycError =
    /** `operator-` would leave some isotope with a negative quantity (a CycRangeException in the source). */
    | NegativeQuantity
    /** A composition failed validation; every offending entry is listed. */
    | InvalidComposition(violations: set<Violation>)
    /** A recipe of this name is already logged. */
    | DuplicateRecipe(name: string)
    /** No recipe of this name is logged. */
    | UnknownRecipe(name: string)
}
