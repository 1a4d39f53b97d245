/** The members of a container that the format gives a name. */
module Layout {
  import M = Manifest

  const CONTENT := M.Ascii("content.md")
  const METADATA := M.Ascii("metadata.yaml")
  const SCHEMA := M.Ascii("schema.yaml")
  const MANIFEST := M.Ascii("manifest.json")
  const POLICY := M.Ascii("encryption/policy.yaml")
  const LOG := M.Ascii("audit.log")
  const CHECKPOINT := M.Ascii("audit.checkpoint")
}
