// The outcome of one worker run as the run log records it: the data-quality
// errors of a point, the exceptions a run can end with, and the error sample
// kept beside the counters.

module RunRecord {

  /** One failed data-quality check on a point, in the order the checks run. */
  datatype DqError =
    | MetricUidEmpty
    | PeriodEmpty
    | PeriodInvalid(period: string)
    | ValueNotFinite
    | ValueOutOfRangeIndex(v: real)
    | ValueOutOfRangePct(v: real)
    | SourceUrlEmpty

  /** The exceptions that end a run early. */
  datatype Failure =
    | FetchFailed(reason: string)      // the HTTP request or its status
    | SqliteUnavailable                // the database cannot be opened
    | NoSuchColumn                     // a schema or store statement meets a table of an older layout
    | MongoUnavailable                 // no server answers
    | IndexConflict                    // an index exists under the same name with other options
    | DuplicateRunId                   // the raw-run insert hit the unique index
    | MissingUpsertObservations        // `mongo_store.upsert_observations` does not exist

  /** `error_sample`: the first rejected point (`dq:<uid>:<codes>`), or the
      `repr` of the exception that ended the run. */
  datatype ErrorSample =
    | DqSample(metricUid: string, errors: seq<DqError>)
    | Raised(failure: Failure)
}
