/** The extended-attribute store that the mapper reads and writes, reduced
    to what the mapper can observe of it (the `xattr` crate's `get` and
    `set` on one path), and the UTF-8 conversion between text and bytes.
    The store is a value: a write produces the next store. */
module XattrStore {
  import opened Wrappers

  newtype byte = x: int | 0 <= x < 256

  type Bytes = seq<byte>

  /** An `std::io::Error`, identified by its OS error code. */
  datatype IoError = IoError(errno: nat)

  /** One filesystem object's extended attributes, with the errors its
      store reports. `getErrors` holds the keys whose lookup fails
      (permission denied, unsupported filesystem, ...), `setErrors` the
      keys whose update fails, and `setLog` every key a `set` has been
      attempted on, in order. */
  datatype Fs = Fs(
    attrs: map<string, Bytes>,
    getErrors: map<string, IoError>,
    setErrors: map<string, IoError>,
    setLog: seq<string>)

  /** `xattr::get(path, key)`: an error, no such attribute, or its bytes. */
  function Get(fs: Fs, key: string): Result<Option<Bytes>, IoError>
  {
    if key in fs.getErrors then Err(fs.getErrors[key])
    else if key in fs.attrs then Ok(Some(fs.attrs[key]))
    else Ok(None)
  }

  /** `xattr::set(path, key, value)`: records the attempt, then either fails
      and leaves the attributes alone or stores `value` under `key`. */
  function Set(fs: Fs, key: string, value: Bytes): (Fs, Outcome<IoError>)
  {
    var attempted := fs.(setLog := fs.setLog + [key]);
    if key in fs.setErrors then (attempted, Fail(fs.setErrors[key]))
    else (attempted.(attrs := fs.attrs[key := value]), Pass)
  }

  /** `str::as_bytes` and `String::from_utf8`, taken as given. */
  datatype Utf8 = Utf8(encode: string -> Bytes, decode: Bytes -> Option<string>)

  /** What the mapper relies on of UTF-8: decoding an encoding gives the text
      back, and a successful decode keeps the bytes it was given (the
      resulting string's `as_bytes` is exactly the input). */
  ghost predicate Sound(codec: Utf8)
  {
    && (forall s :: codec.decode(codec.encode(s)) == Some(s))
    && (forall b :: codec.decode(b).Some? ==> codec.encode(codec.decode(b).value) == b)
  }
}
