/** The storage package's sentinel errors, as its implementations return them. */
module Storage {
  import opened GoErrors

  const ErrUserExist := Sentinel("storage.ErrUserExist", "user already exists")
  const ErrUserNotFound := Sentinel("storage.ErrUserNotFound", "user not found")
  const ErrAppNotFound := Sentinel("storage.ErrAppNotFound", "app not found")
}
