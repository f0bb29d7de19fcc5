/**
 Shared vocabulary of the model: bytes with Rust's `u8` wrap-around written out,
 an optional value, a pass/fail outcome, and a file system seen as a map from full
 path to contents.
 */
module Common {

  /** Rust's `u8`: an integer in 0..255. Wrap-around is never implicit. */
  newtype byte = x: int | 0 <= x < 256

  type Bytes = seq<byte>

  datatype Option<+T> = None | Some(value: T)

  datatype Outcome<+E> = Pass | Fail(error: E)

  /** The files the program can see: full path to contents. A path is present
      exactly when `fs::metadata` on it succeeds. */
  type FileSystem = map<string, Bytes>

  function Min(a: int, b: int): (m: int)
  {
    if a <= b then a else b
  }

  /** `u8::wrapping_sub`: the difference taken modulo 256. */
  function WrappingSub(a: byte, b: byte): (r: byte)
    ensures r as int == (a as int - b as int) % 256
  {
    if b <= a then a - b else (256 + a as int - b as int) as byte
  }

  /** `u8::wrapping_add`: the sum taken modulo 256. */
  function WrappingAdd(a: byte, b: byte): (r: byte)
    ensures r as int == (a as int + b as int) % 256
  {
    if a as int + b as int < 256 then (a as int + b as int) as byte
    else (a as int + b as int - 256) as byte
  }

  /** Adding back what was subtracted restores the byte, for every pair. */
  lemma WrappingAddUndoesSub(a: byte, b: byte)
    ensures WrappingAdd(a, WrappingSub(b, a)) == b
  {
  }

  /** `format!("{}/{}", folder, relative)`. */
  function JoinPath(folder: string, relative: string): (path: string)
  {
    folder + "/" + relative
  }

  /** Within one folder, distinct relative paths give distinct path strings. Files are
      identified by their path strings: case-insensitive names and mixed `\` and `/`
      separators are not modelled. */
  lemma JoinPathInjective(folder: string, a: string, b: string)
    ensures JoinPath(folder, a) == JoinPath(folder, b) <==> a == b
  {
    if JoinPath(folder, a) == JoinPath(folder, b) {
      var n := |folder| + 1;
      assert a == JoinPath(folder, a)[n..];
      assert b == JoinPath(folder, b)[n..];
    }
  }
}
