/**
 * The values the cohort repository stores: a static cohort, a (dynamic) cohort
 * definition and one membership edge between a cohort and a patient.
 */
module Entities {
  /** A named, statically enumerated group of patients; the uuid is its identity. */
  datatype Cohort = Cohort(uuid: string, name: string, description: string)

  /** A named group of patients computed by a server-side query; the uuid is its identity. */
  datatype CohortDefinition = CohortDefinition(uuid: string, name: string, description: string)

  /** One membership edge: patient `patientUuid` belongs to cohort `cohortUuid`. */
  datatype CohortMember = CohortMember(cohortUuid: string, patientUuid: string)

  // Field selectors as named functions, so that every use passes the same function value
  // to the generic keyed-store definitions.
  function CohortUuid(c: Cohort): string { c.uuid }
  function CohortName(c: Cohort): string { c.name }
  function DefinitionUuid(d: CohortDefinition): string { d.uuid }
  function DefinitionName(d: CohortDefinition): string { d.name }
}
