/** `MailAddress`: an address with an optional personal name. */
module Address {
  import opened Wrappers
  import opened JavaStrings

  datatype MailAddress = MailAddress(address: string, personal: Option<string>)

  /** The one-argument constructor: no personal name. */
  function OfAddress(address: string): (a: MailAddress)
    ensures a.address == address && a.personal.None?
  {
    MailAddress(address, None)
  }

  /** The `InternetAddress` a `MailAddress` becomes. */
  datatype InternetAddress =
    | Bare(address: string)
    | Named(address: string, personal: string, charset: Option<string>)

  /**
   * `toInternetAddress(charset)`: a blank personal name gives the bare
   * address; otherwise the name is kept and encoded with `charset`
   * (`null` meaning the platform default).
   */
  function ToInternetAddress(a: MailAddress, charset: Option<string>): (r: InternetAddress)
    ensures r.address == a.address
    ensures r.Bare? <==> IsBlank(a.personal)
    ensures r.Named? ==> Some(r.personal) == a.personal && r.charset == charset
  {
    if IsBlank(a.personal) then Bare(a.address)
    else Named(a.address, a.personal.value, charset)
  }

  /** `toInternetAddress()`: the same with a null charset. */
  function ToInternetAddressDefault(a: MailAddress): (r: InternetAddress)
    ensures r == ToInternetAddress(a, None)
    ensures r.Named? ==> r.charset.None?
  {
    ToInternetAddress(a, None)
  }

  /**
   * `new MailAddress(address.getAddress(), address.getPersonal())`: the
   * personal name is null for a bare address.
   */
  function OfInternetAddress(ia: InternetAddress): (a: MailAddress)
    ensures a.address == ia.address
    ensures a.personal.Some? <==> ia.Named?
    ensures ia.Named? ==> a.personal == Some(ia.personal)
  {
    match ia
    case Bare(address) => MailAddress(address, None)
    case Named(address, personal, _) => MailAddress(address, Some(personal))
  }

  /**
   * Converting to an `InternetAddress` and back keeps the address and a
   * non-blank personal name, and turns a blank one into null.
   */
  lemma InternetAddressRoundTrip(a: MailAddress, charset: Option<string>)
    ensures OfInternetAddress(ToInternetAddress(a, charset)) ==
      if IsBlank(a.personal) then OfAddress(a.address) else a
  {
  }

  /** `toString()`: `personal<address>`, or the bare address when the name is blank. */
  function ToString(a: MailAddress): (r: string)
    ensures IsBlank(a.personal) ==> r == a.address
    ensures !IsBlank(a.personal) ==>
      IsPrefix(a.personal.value + "<", r) && r[|a.personal.value| + 1..] == a.address + ">"
  {
    if IsBlank(a.personal) then a.address
    else a.personal.value + "<" + a.address + ">"
  }

  /**
   * The address part of the text form can be read back: it is the text
   * itself, or the text after the first `<` minus the final `>` when the
   * personal name holds no `<`.
   */
  lemma ToStringAddressRecoverable(a: MailAddress)
    requires IsNotBlank(a.personal) ==> '<' !in a.personal.value
    ensures var s := ToString(a);
      if IsBlank(a.personal) then s == a.address
      else |UpTo(s, '<')| + 2 <= |s| && s[|UpTo(s, '<')| + 1..|s| - 1] == a.address
  {
    if IsNotBlank(a.personal) {
      var p := a.personal.value;
      UpToStopsAt(p, a.address + ">");
      assert ToString(a) == p + ['<'] + (a.address + ">");
    }
  }

  lemma {:induction false} UpToStopsAt(p: string, rest: string)
    requires '<' !in p
    ensures UpTo(p + ['<'] + rest, '<') == p
    decreases |p|
  {
    if p != [] {
      assert (p + ['<'] + rest)[1..] == p[1..] + ['<'] + rest;
      UpToStopsAt(p[1..], rest);
      assert p == [p[0]] + p[1..];
    }
  }
}
