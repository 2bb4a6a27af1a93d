/** The persistent MwCAS implementations the array benchmarks compare. */
module Competitor {
  datatype Implementation = PMwCAS | MicrosoftPMwCAS | PCAS
}
