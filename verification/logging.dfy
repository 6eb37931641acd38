/** The logger's records that the pipeline emits at WARNING and SEVERE level. */
module Logging {

  datatype Level = Warning | Severe

  /** What a record reports; PrintRecordFailed carries the row's values. */
  datatype Event<V> =
    | EnvUnset(key: string)
    | TempDirFailed
    | OpenRepoFailed(remote: string)
    | PageFetchFailed
    | PrintRecordFailed(values: seq<V>)
    | CsvPrinterFailed
    | FileWriterFailed
    | TempDeleteFailed

  datatype Record<V> = Record(level: Level, event: Event<V>)
}
