// A metric label: a name and a value.

module Labels {
  import opened ByteStrings

  datatype Label = Label(name: Bytes, value: Bytes)
}
