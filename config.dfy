/** The request body limit set up in `main`:
    `env.body_limit.unwrap_or(250) * 1024 * 1024`, in `usize` arithmetic. */
module Config {
  import opened Wrappers

  /** `usize` on a 64-bit target. */
  const UsizeModulus: nat := 0x1_0000_0000_0000_0000
  newtype Usize = x: int | 0 <= x < 0x1_0000_0000_0000_0000

  const UsizeMax: Usize := 0xffff_ffff_ffff_ffff
  const DefaultBodyLimitMegabytes: Usize := 250
  const Mebibyte: nat := 1024 * 1024

  /** The limit as written: the multiplication wraps modulo 2^64 (a release
      build; a debug build panics at start-up instead). It is the configured
      number of megabytes in bytes only while that product fits in a `usize`. */
  function BodyLimitAsWritten(configured: Option<Usize>): (limit: Usize)
    ensures configured.None? ==> limit as nat == 250 * Mebibyte
    ensures configured.Some? && configured.value as nat * Mebibyte < UsizeModulus ==>
      limit as nat == configured.value as nat * Mebibyte
  {
    var megabytes := configured.UnwrapOr(DefaultBodyLimitMegabytes);
    ((megabytes as int * 1024 % UsizeModulus) * 1024 % UsizeModulus) as Usize
  }

  /** A configured limit of 2^44 megabytes wraps to a limit of zero bytes, so
      every request with a body would be refused; a configured limit of one
      megabyte is larger. */
  lemma BodyLimitWrapsToZero()
    ensures BodyLimitAsWritten(Some(0x1000_0000_0000)) == 0
    ensures BodyLimitAsWritten(Some(1)) as nat == Mebibyte
  {
  }

  /** The limit with the multiplication saturating at `usize::MAX`: the
      configured megabytes in bytes, or the largest `usize` when that does not
      fit. */
  function BodyLimit(configured: Option<Usize>): (limit: Usize)
    ensures configured.None? ==> limit as nat == 250 * Mebibyte
    ensures configured.Some? ==>
      limit as nat == if configured.value as nat * Mebibyte < UsizeModulus
                      then configured.value as nat * Mebibyte else UsizeMax as nat
  {
    var megabytes := configured.UnwrapOr(DefaultBodyLimitMegabytes);
    if megabytes as nat * Mebibyte < UsizeModulus then (megabytes as int * Mebibyte) as Usize else UsizeMax
  }

  /** Configuring more megabytes never lowers the limit, and the limit is
      never below what was configured unless it is already `usize::MAX`. */
  lemma BodyLimitMonotone(a: Usize, b: Usize)
    requires a <= b
    ensures BodyLimit(Some(a)) <= BodyLimit(Some(b))
    ensures BodyLimit(Some(a)) as nat >= a as nat * Mebibyte || BodyLimit(Some(a)) == UsizeMax
  {
    assert a as nat * Mebibyte <= b as nat * Mebibyte;
  }
}
