/** The two HTTP handlers that touch the core: `/set` and `/state`. Routing,
    the HTML page and argument parsing are outside the model; `/set` is given
    the integer the query parser produced. */
module HttpApi {
  import opened Text
  import opened Antenna

  /** Size of the `char buf[32]` that `handleState` formats into. */
  const StateBufferSize: int := 32

  const JsonPrefix: string := "{\"antenna\":"

  /** Body of `/state`: `{"antenna":%d}`. */
  function StateJson(n: int): string
  {
    JsonPrefix + IntToDecimal(n) + "}"
  }

  /** Reads the `antenna` number back out of a `/state` body. */
  function ParseStateJson(s: string): Option<int>
  {
    if |s| > |JsonPrefix| && s[..|JsonPrefix|] == JsonPrefix && s[|s| - 1] == '}' then
      ParseInt(s[|JsonPrefix|..|s| - 1])
    else
      None
  }

  /** `handleState`: reports the current selection and changes nothing. */
  function HandleState(d: Device): (body: string)
    ensures ParseStateJson(body) == Some(d.antenna)
  {
    StateJsonRoundTrip(d.antenna);
    StateJson(d.antenna)
  }

  /** `handleSet`: `setAntenna` with the parsed argument, then `{"ok":true}`. */
  function HandleSet(d: Device, ant: int): (result: (Device, string))
    ensures result.0 == SetAntenna(d, ant)
    ensures result.0.antenna == Coerce(ant)
    ensures result.1 == "{\"ok\":true}"
  {
    (SetAntenna(d, ant), "{\"ok\":true}")
  }

  /** A `/state` body reads back as the number it was formatted from. */
  lemma StateJsonRoundTrip(n: int)
    ensures ParseStateJson(StateJson(n)) == Some(n)
  {
    var body := StateJson(n);
    assert body[..|JsonPrefix|] == JsonPrefix;
    assert body[|JsonPrefix|..|body| - 1] == IntToDecimal(n);
    IntToDecimalRoundTrip(n);
  }

  /** Distinct selections give distinct `/state` bodies. */
  lemma StateJsonInjective(m: int, n: int)
    requires StateJson(m) == StateJson(n)
    ensures m == n
  {
    StateJsonRoundTrip(m);
    StateJsonRoundTrip(n);
  }

  /** For every 32-bit `int` the formatted body and its terminating NUL fit in
      the 32-byte buffer: the longest body, for -2147483648, takes 23 characters. */
  lemma StateJsonFitsBuffer(n: int)
    requires -0x8000_0000 <= n < 0x8000_0000
    ensures |StateJson(n)| + 1 <= StateBufferSize
  {
    assert Pow10(10) == 10_000_000_000;
    if n < 0 {
      NatToDecimalLength(-n, 10);
    } else {
      NatToDecimalLength(n, 10);
    }
  }
}
