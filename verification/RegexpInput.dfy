/** The subject string as the regular-expression executor sees it
    (`GET_CHAR`, `PEEK_CHAR`, `GET_PREV_CHAR`, `PREV_CHAR`). */
module RegexpInput {
  import opened Surrogates

  /** `units` are the 8- or 16-bit code units of the subject; `pairs` is set for
      UTF-16 subjects of unicode patterns (`cbuf_type == 2`), where a high and a low
      surrogate in a row form one character.  `canon` is `lre_canonicalize`. */
  datatype Env = Env(units: seq<int>, pairs: bool, canon: int -> int)
  {
    function Len(): (n: nat) { |units| }

    function Fold(icase: bool, c: int): int {
      if icase then canon(c) else c
    }
  }

  /** Is there a surrogate pair at `p`, not reading at or beyond `end`? */
  predicate PairAt(env: Env, p: int, end: int)
    requires 0 <= p < end <= env.Len()
  {
    env.pairs && IsHi(env.units[p]) && p + 1 < end && IsLo(env.units[p + 1])
  }

  /** The character at `p`, reading no unit at or beyond `end`. */
  function CharAt(env: Env, p: int, end: int): int
    requires 0 <= p < end <= env.Len()
  {
    if PairAt(env, p, end) then FromSurrogates(env.units[p], env.units[p + 1]) else env.units[p]
  }

  /** The position after the character at `p`. */
  function Next(env: Env, p: int, end: int): (q: int)
    requires 0 <= p < end <= env.Len()
    ensures p < q <= end
  {
    if PairAt(env, p, end) then p + 2 else p + 1
  }

  /** The position before the character that ends at `p`, reading no unit before `start`. */
  function Prev(env: Env, p: int, start: int): (q: int)
    requires 0 <= start < p <= env.Len()
    ensures start <= q < p
  {
    if env.pairs && IsLo(env.units[p - 1]) && start < p - 1 && IsHi(env.units[p - 2]) then p - 2 else p - 1
  }

  /** The character that ends at `p`. */
  function CharBefore(env: Env, p: int, start: int): int
    requires 0 <= start < p <= env.Len()
  {
    if Prev(env, p, start) == p - 2 then FromSurrogates(env.units[p - 2], env.units[p - 1]) else env.units[p - 1]
  }

  /** A position that does not split a surrogate pair. */
  predicate Boundary(env: Env, p: int) {
    && 0 <= p <= env.Len()
    && !(env.pairs && 0 < p < env.Len() && IsHi(env.units[p - 1]) && IsLo(env.units[p]))
  }

  /** Between boundaries, reading forward and stepping back are inverse to each other,
      and the limits given to the reading macros make no difference. */
  lemma NextIsBoundary(env: Env, p: int, end: int)
    requires Boundary(env, p) && Boundary(env, end) && p < end
    ensures Boundary(env, Next(env, p, end))
    ensures Next(env, p, end) == Next(env, p, env.Len())
    ensures CharAt(env, p, end) == CharAt(env, p, env.Len())
    ensures forall start | 0 <= start <= p && Boundary(env, start) ::
              && Prev(env, Next(env, p, end), start) == p
              && CharBefore(env, Next(env, p, end), start) == CharAt(env, p, end)
  {
  }

  lemma PrevIsBoundary(env: Env, p: int, start: int)
    requires Boundary(env, p) && Boundary(env, start) && start < p
    ensures Boundary(env, Prev(env, p, start))
    ensures Prev(env, p, start) == Prev(env, p, 0)
    ensures CharBefore(env, p, start) == CharBefore(env, p, 0)
    ensures Next(env, Prev(env, p, start), env.Len()) == p
    ensures CharAt(env, Prev(env, p, start), env.Len()) == CharBefore(env, p, start)
  {
  }

  predicate IsLineTerminator(c: int) {
    c == 0x0A || c == 0x0D || c == 0x2028 || c == 0x2029
  }

  predicate IsSpace(c: int) {
    || 0x0009 <= c <= 0x000D || c == 0x0020 || c == 0x00A0 || c == 0x1680
    || 0x2000 <= c <= 0x200A || 0x2028 <= c <= 0x2029 || c == 0x202F
    || c == 0x205F || c == 0x3000 || c == 0xFEFF
  }

  /** `lre_is_word_byte` and the two characters that fold to an ASCII letter. */
  predicate IsWord(c: int, icase: bool) {
    || 0x30 <= c <= 0x39 || 0x41 <= c <= 0x5A || c == 0x5F || 0x61 <= c <= 0x7A
    || (icase && (c == 0x017F || c == 0x212A))
  }
}
