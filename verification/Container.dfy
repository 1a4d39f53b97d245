/** A directory container: member paths to bytes, changed in place; reads and writes of it succeed. */
module Container {
  import opened Bytes
  import opened Json

  class Dir {
    var files: map<Text, Text>

    constructor (files: map<Text, Text>)
      ensures this.files == files
    {
      this.files := files;
    }

    method Read(path: Text) returns (data: Option<Text>)
      ensures data == if path in files then Some(files[path]) else None
    {
      data := if path in files then Some(files[path]) else None;
    }

    method Write(path: Text, data: Text)
      modifies this
      ensures files == old(files)[path := data]
    {
      files := files[path := data];
    }

    /** Appending creates the member when it is missing. */
    method Append(path: Text, data: Text)
      modifies this
      ensures files == old(files)[path := (if path in old(files) then old(files)[path] else []) + data]
    {
      files := files[path := (if path in files then files[path] else []) + data];
    }

    method Remove(path: Text)
      modifies this
      ensures files == old(files) - {path}
    {
      files := files - {path};
    }
  }
}
