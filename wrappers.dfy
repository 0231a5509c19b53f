/** Optional values, pass/fail outcomes and parsed request parameters, used
    where the source returns None, raises an exception that the caller sees
    or converts a request parameter with int(). */
module Wrappers {

  datatype Option<+T> = None | Some(value: T)

  datatype Outcome<+E> = Pass | Fail(error: E)

  /** What `int(request.GET.get(name))` or `int(request.POST.get(name))`
      meets: no such parameter (a TypeError), a text that int() rejects (a
      ValueError), or an integer. */
  datatype ParsedInt = Absent | Malformed | Parsed(value: int)
}
