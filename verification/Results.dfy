/** What calls give back. */
module Results {

  datatype Option<T> = None | Some(value: T)

  /** 0 and the negated error numbers that gralloc_gbm.c returns. */
  datatype Status = OK | ENODEV | EINVAL | ENOMEM
}
