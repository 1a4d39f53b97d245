/** What HTML and XML share: the characters of tags and references, and attributes. */
module Markup {
  import opened Bytes
  import opened Json

  const LT: byte := 0x3C
  const GT: byte := 0x3E
  const AMP: byte := 0x26
  const SEMI: byte := 0x3B
  const EQ: byte := 0x3D

  datatype Attr = Attr(name: Text, value: Text)
}
