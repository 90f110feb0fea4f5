/** Small shared vocabulary: optional values, bytes, and the two Python string
    idioms the bot relies on (`str.startswith` and `x or default`). */
module Common {

  /** A value that may be absent: the model's reading of `Optional[...]`
      fields, where Python's `None` is `None` here. */
  datatype Option<+T> = None | Some(value: T)

  /** One byte of downloaded file content. */
  newtype byte = x: int | 0 <= x < 256

  type Bytes = seq<byte>

  /** Python's `s.startswith(prefix)`. */
  predicate StartsWith(s: string, prefix: string) {
    |prefix| <= |s| && s[..|prefix|] == prefix
  }

  /** Python's `x or default` where `x` is an optional string: both `None`
      and the empty string are falsy and give way to the default. */
  function OrDefault(x: Option<string>, default: string): string {
    if x.Some? && x.value != "" then x.value else default
  }

  /** Python's truthiness test on an optional integer: `None` and `0` are falsy. */
  predicate Truthy(x: Option<nat>) {
    x.Some? && x.value != 0
  }
}
