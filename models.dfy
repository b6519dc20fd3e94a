/** The domain records and scalar types the authentication service passes around. */
module Models {

  newtype byte = x: int | 0 <= x < 0x100
  type Bytes = seq<byte>

  /** Go's int64. */
  newtype Int64 = x: int | -0x8000_0000_0000_0000 <= x < 0x8000_0000_0000_0000

  /** time.Duration: a count of nanoseconds, passed on unchanged. */
  type Duration = Int64

  /** A context.Context, passed on unchanged to the collaborators. */
  datatype Context = Context(handle: nat)

  datatype User = User(id: Int64, email: string, passHash: Bytes)

  datatype App = App(id: int, name: string, secret: string)

  /** The zero models.User: what a provider returns beside an error. */
  const ZeroUser := User(0, "", [])
}
