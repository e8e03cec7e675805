/** The authentication check behind the lock screen, as it stands: both
    pointers non-null and both strings non-empty.
    A C `char *` is `None` for NULL, or `Some(mem)` with `mem` the bytes from
    the pointer on, which hold the terminating NUL somewhere. */
module Pam {
  import opened Primitives

  /** A well-formed C string: its bytes reach a NUL terminator. */
  predicate Terminated(mem: seq<u8>)
  {
    0 in mem
  }

  /** `strlen`: the number of bytes before the first NUL. */
  function Strlen(mem: seq<u8>): (n: nat)
    requires Terminated(mem)
    ensures n < |mem| && mem[n] == 0
    ensures forall i :: 0 <= i < n ==> mem[i] != 0
  {
    if mem[0] == 0 then 0 else Strlen(mem[1..]) + 1
  }

  /** A C string is empty exactly when its first byte is the NUL. */
  lemma StrlenZero(mem: seq<u8>)
    requires Terminated(mem)
    ensures Strlen(mem) == 0 <==> mem[0] == 0
  {
  }

  /** `check_auth`: false for a NULL username, then false for a NULL
      password, otherwise whether both strings are non-empty. */
  function CheckAuth(username: Option<seq<u8>>, password: Option<seq<u8>>): (ok: bool)
    requires username.Some? ==> Terminated(username.value)
    requires password.Some? ==> Terminated(password.value)
    ensures username.None? ==> !ok
    ensures password.None? ==> !ok
    ensures ok <==> username.Some? && password.Some?
                    && username.value[0] != 0 && password.value[0] != 0
  {
    if username.None? then
      false
    else if password.None? then
      false
    else
      var userLen := Strlen(username.value);
      var passLen := Strlen(password.value);
      userLen != 0 && passLen != 0
  }
}
