/** The project checkout as the document resolver and the search see it: each
    regular file, by its path relative to the project root, with the size
    `fs.stat` reports and the text `fs.readFile(…, "utf-8")` returns (`None`
    when reading fails). */
module Workspace {
  import opened Sequences

  datatype FileData = FileData(size: nat, content: Option<string>)

  type Files = map<string, FileData>
}
