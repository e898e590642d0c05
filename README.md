# witsi output pipelines in Dafny

A model of the two output-stage pipelines of `witsi/pipeline.py`, the plugins a
Scrapy crawl uses to store what a spider scrapes.

- **`CsvPipeline`** (module `CsvExport`, `csv_pipeline.dfy`) appends every
  item as a row to `<output>/<project>/<spider>.csv`. The header line is
  written only when the file is empty. When the spider closes, the file is read
  back with pandas, duplicate rows are dropped, the rows are sorted when a
  `SORT_BY` column is configured, and the file is rewritten. The file is a
  sequence of lines and a line is the sequence of its cells. `FileText` gives
  the file as text (cells joined by commas, one newline per line), so "size 0"
  means "no lines". Finalisation is the function `Finalise`, with an abstract
  contract:
  - the header line stays first;
  - every data row of the file is in the result exactly once, and nothing else is;
  - without a sort key, rows keep the order of their first occurrence;
  - with a sort key, rows are ordered by that column. The order is a total
    preorder `le` supplied by the caller, standing for how pandas compares the
    column's values.
- **`DataPackagePipeline`** (module `DataPackage`, `data_package_pipeline.dfy`)
  keeps `datapackage.json`, the manifest. It creates the manifest when there is
  none. When the spider closes, it updates the job's resource entry: a
  first-match scan on `"name"` finds the entry, an empty entry is appended when
  none matches, and that one entry gets the job's name, `md5-` hash, byte size,
  timestamp and field schema. `Upsert` is the reference definition of that
  update. Lemmas prove that the update keeps names unique and never adds a
  second entry for a job, and that finalising twice equals finalising once
  with the later values.

Both pipelines are classes whose fields hold the file contents (`file`, the
CSV lines; `manifest`, the manifest or `None` while it does not exist). Their
constructors and `Close` methods are stated against the functions above.
`wrappers.dfy` holds the `Option` and `Result` types. `Result` models the
exceptions the source lets escape.

## Model

| member | source | states |
|---|---|---|
| `CsvExport.FileText` | witsi/pipeline.py:54 | the file has size 0 exactly when it has no lines, because every line adds at least its newline |
| `CsvExport.Reopen` | witsi/pipeline.py:50-55 | opening for append changes the file exactly when it has size 0, and then the file is the header line alone; a non-empty file is left unchanged; the result is never empty |
| `CsvExport.HeaderLineText` | witsi/pipeline.py:54-55 | what construction writes into an empty file is exactly `Join(header, ",") + "\n"` |
| `CsvExport.AfterClose` | witsi/pipeline.py:61-71 | closing a non-empty file, whether finalisation succeeds or fails, leaves a non-empty file with the same first line |
| `CsvExport.ReplayKeepsFirstLine` | witsi/pipeline.py:61-75 | any number of jobs that append rows and close keep the first line of a non-empty file |
| `CsvExport.SessionsOnNonEmptyFile` | witsi/pipeline.py:54-55 | jobs that construct the pipeline on a non-empty file, append and close give the same file as jobs that never construct it: no construction writes anything |
| `CsvExport.HeaderWrittenAtMostOnce` | witsi/pipeline.py:50-75 | over one or more jobs on the same file, each constructing the pipeline, appending rows and closing, only the first construction can write the header: the result equals that construction followed by jobs that never construct, and its first line is the header when the file was empty and the file's first line otherwise |
| `CsvExport.RowOf` | witsi/pipeline.py:57-58 | an exported row has one cell per header field, in header order: the item's value, or "" when the item lacks the field |
| `CsvExport.Rows` | witsi/pipeline.py:73-75 | a run of items gives exactly one row per item |
| `CsvExport.RowsInArrivalOrder` | witsi/pipeline.py:73-75 | the i-th row exported is the i-th item's row: rows come in arrival order |
| `CsvExport.Dedup` | witsi/pipeline.py:66 | `drop_duplicates` keeps exactly the rows of its input, with no repeats |
| `CsvExport.DedupKeepsFirstOccurrenceOrder` | witsi/pipeline.py:66 | the rows that remain are in the order of their first occurrence |
| `CsvExport.Sort` | witsi/pipeline.py:68-69 | `sort_values` returns a permutation of the rows ordered by the key column, ascending or descending |
| `CsvExport.InsertKeepsSorted` | witsi/pipeline.py:69 | proof step for `Sort` (the model's insertion sort standing for `sort_values`): inserting a row into rows already ordered by the key keeps them ordered, in either direction |
| `CsvExport.Finalise` | witsi/pipeline.py:65-71 | errors exactly when the file or its header is empty, a row is wider than the header, or a requested sort column is absent. On success: the header stays first, each padded data row occurs exactly once, rows keep first-occurrence order when no sort is requested, and are ordered by the key column when one is |
| `CsvExport.SameItemTwiceKeptOnce` | witsi/pipeline.py:65-75 | exporting the same item twice into a new file and finalising leaves the header and one row for it, with or without sorting |
| `CsvExport.ResolveOptions` | witsi/pipeline.py:20-36 | the header defaults to the item class's fields, sorting is off unless `SORT_BY` is set, and the direction is ascending unless `SORT_ASCENDING` is false |
| `CsvExport.CsvPipeline.constructor` | witsi/pipeline.py:45-59 | the file becomes `Reopen(existing, header)`, so the header is written only into an empty file; the options are stored |
| `CsvExport.CsvPipeline.ProcessItem` | witsi/pipeline.py:73-75 | exactly one row, the item's, is appended after the earlier lines, which are unchanged; the item is returned unchanged |
| `CsvExport.CsvPipeline.Close` | witsi/pipeline.py:61-71 | the pipeline is closed; the file becomes `Finalise` of its contents, or keeps its contents when `Finalise` fails and that error is returned, which is `AfterClose` of the old file; the file is never empty |
| `DataPackage.PackageConfig` | witsi/pipeline.py:104-107 | NAME is the configured one, or the spider's name when unset; every other setting is kept |
| `DataPackage.FieldEntry` | witsi/pipeline.py:100 | a schema entry holds "name" and the field's schema keys, with the schema's values; its "name" is the field key unless the schema has its own "name" |
| `DataPackage.Exported` | witsi/pipeline.py:98-101 | the fields kept are exactly the item-class fields that the header contains |
| `DataPackage.ExportedInDeclarationOrder` | witsi/pipeline.py:98-101 | the kept fields are a subsequence of the item class's declaration order, whatever the header's order |
| `DataPackage.SchemaFields` | witsi/pipeline.py:97-101 | the schema has one entry per kept field, in that order, each built from that field's schema |
| `DataPackage.FreshManifest` | witsi/pipeline.py:124-129 | a created manifest has no resources |
| `DataPackage.FreshManifestDefaults` | witsi/pipeline.py:104-107 | with the settings `from_crawler` builds, a created manifest is named after the spider unless NAME is set; title and description default to "" |
| `DataPackage.FindJob` | witsi/pipeline.py:136-138 | the scan returns the lowest index whose "name" is the job, with every earlier entry named otherwise. It returns nothing when every entry is named otherwise. It fails at the first entry without "name" met before a match |
| `DataPackage.Stamped` | witsi/pipeline.py:147-152 | the stamped entry has "name" = job, "hash" = "md5-" + digest, "bytes", "last_updated" and "fields" as given; every other key it had is kept |
| `DataPackage.Upsert` | witsi/pipeline.py:136-154 | fails when the scan fails. If the job has an entry, the length is unchanged, the first such entry is stamped and every other entry is unchanged. Otherwise one stamped empty entry is appended after the unchanged list |
| `DataPackage.UpsertKeepsNamesUnique` | witsi/pipeline.py:136-154 | if no two entries share a name before the update, none do after it |
| `DataPackage.UpsertJobCount` | witsi/pipeline.py:140-142 | after the update the job has as many entries as before, or exactly one if it had none |
| `DataPackage.JobCountZero` | witsi/pipeline.py:136-141 | when the scan finds no match, the job has no entry |
| `DataPackage.FindJobFirst` | witsi/pipeline.py:136-138 | an entry of the job preceded only by entries named otherwise is the one the scan returns |
| `DataPackage.FindJobAfterUpsert` | witsi/pipeline.py:136-142 | scanning again after an update finds the entry just stamped: the same index, or the appended one |
| `DataPackage.UpsertTwice` | witsi/pipeline.py:136-154 | finalising twice gives the same resources as finalising once with the second run's values: no second entry is ever added |
| `DataPackage.FreshManifestFinalisedTwice` | witsi/pipeline.py:122-154 | a created manifest finalised twice holds exactly one resource, the job's, with the second run's byte size and hash |
| `DataPackage.DataPackagePipeline.constructor` | witsi/pipeline.py:116-130 | a missing manifest is created as `FreshManifest(config)` (NAME needed only then); an existing manifest is left untouched |
| `DataPackage.DataPackagePipeline.Close` | witsi/pipeline.py:132-157 | the manifest's resources become `Upsert` of the old ones with the hash and size of the CSV contents, the given time and the schema. Name, title and description are unchanged. On a failed scan the manifest is unchanged and the error is returned |
| `DataPackage.DataPackagePipeline.ProcessItem` | witsi/pipeline.py:159-160 | the item is returned unchanged |

## Left out

- File and directory I/O: `mkdir`, opening files, and JSON load and dump with their indentation. The CSV file and the manifest are values held by the pipeline objects. `existing` is the file as found when the pipeline is constructed.
- The output paths built from `OUTPUT_DIR`, `BOT_NAME` and the spider name (witsi/pipeline.py:16-18, 85-88): this is string plumbing for the filesystem.
- Item-class introspection (`__fields__`, `schema()['properties']`): the field names and the property schemas are parameters of `ResolveOptions` and `SchemaFields`. `SchemaFields` requires every kept field to have a property schema.
- MD5 and the clock: `Close` takes the digest function and the timestamp as parameters. The hash is read in text mode and re-encoded, while `bytes` is `stat().st_size`. The model takes both from the same string, so it does not capture newline translation.
- DataPackage.DataPackagePipeline.Close: `bytes` is the CSV's length in characters, while `st_size` counts encoded bytes, so the two differ for any non-ASCII cell.
- DataPackage.SchemaFields: requires each kept field to have a property schema. A pydantic field declared with an alias is keyed by its alias in `schema()['properties']`, so the source raises `KeyError` at witsi/pipeline.py:100; that error is not modelled.
- CSV serialisation: quoting, escaping and the `\r\n` row terminator of `CsvItemExporter`, and how pandas writes values back. A line is its list of cells. Two lines whose text would be identical but whose cells differ are different in the model.
- pandas type inference: numbers, leading zeros, float formatting and missing values (NaN). Cells are strings and duplicates are compared as strings. pandas puts an empty sort-key value last in both directions, but the model applies `le` as given.
- Other pandas parsing rules: skipping blank lines and renaming duplicate column names.
- CsvExport.Finalise: returns `RowTooWide` for every data row wider than the header. pandas decides from the first data row alone: when it has k more fields than the header, its first k cells become the index, which `to_csv(index=False)` then drops, and only later rows wider than that first row raise. Where the first data row is wider, the model reports an error and pandas drops columns instead. A shorter row is padded with empty cells in both.
- CsvExport.Reopen, CsvExport.Finalise: the header line is written with `','.join` and no CSV quoting, while the rows are quoted. pandas therefore reads a header name that contains `,`, `"` or a newline as other columns (`a,b` becomes the two columns `a` and `b`). The model treats the header's cells as the table's columns, so for such names its width check, `MissingSortColumn` test and sort column differ from pandas.
- A list of sort columns: `SORT_BY` is modelled as one column name.
- CsvExport.Finalise: states no order among rows with equal sort keys, because pandas' default sort is not stable.
- CsvExport.CsvPipeline.Close: takes the order of the sort column as a parameter, for the same reason as `Finalise`.
- Calling `process_item` or `close_spider` after `close_spider`, which the host never does: both methods require an open pipeline.
- Non-integer JSON numbers: `Json` has integers only, so an existing entry or a property schema holding, say, `0.5` cannot be represented. "Every other key is kept" in `Stamped` and `Upsert` is stated for entries the model can represent.
- Top-level manifest keys other than name, title, description and resources. A manifest without `resources`, and entries that are not JSON objects: each would raise in the source.
- The order in which the host closes the two pipelines. The manifest records whatever CSV contents `Close` is given, finalised or not.
- `setup.py`: packaging metadata only.
