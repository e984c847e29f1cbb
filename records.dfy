/** The per-file record the registry keeps. */
module Records {
  import opened Cells

  /** `type: 'csv' | 'excel'`. */
  datatype FileKind = Csv | Excel

  /** `status`: the loaders only ever build `Loaded` records, but the merge
      still checks it. */
  datatype FileStatus = Loaded | Failed

  /** One loaded file: its display name, where it came from, every row as
      read (header row included), the cleaned column names, the number of
      data rows and its status. */
  datatype FileRecord = FileRecord(
    name: string,
    path: string,
    kind: FileKind,
    data: seq<seq<Cell>>,
    columns: seq<string>,
    rows: int,
    status: FileStatus)
}
