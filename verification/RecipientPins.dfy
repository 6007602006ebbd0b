/** Owner recipient pins: which list, if any, governs an admitted transfer, and whether it names the recipient. */
module RecipientPins {
  import opened Basics
  import opened AssetPolicy

  predicate IsPinRail(r: Rail) { r in {Direct, X402, Bridge} }

  /** The governing pin list, or None when the policy does not restrict recipients; with bridge alternatives the
      selected alternative's own list governs, so the mechanism must name one. */
  function AdmittedPins(a: Admission, mechanism: Option<ProviderPin>): Result<Option<seq<string>>> {
    if !IsPinRail(a.rail) then Ok(None)
    else if a.rail != Bridge || a.row.bridgeOptions.None? then
      Ok(if a.rail in a.row.recipients then Some(a.row.recipients[a.rail]) else None)
    else if mechanism.None? then Err(AllowlistRefused)
    else
      var selected := FindOption(a.row.bridgeOptions.value, mechanism.value);
      if selected.None? then Err(AllowlistRefused) else Ok(selected.value.recipients)
  }

  /** A recipient of any spelling is compared by its canonical one. */
  predicate Lists(codec: Codec, pins: Option<seq<string>>, recipient: string) {
    pins.Some? ==> codec.recipient(recipient).Some? && codec.recipient(recipient).value.address in pins.value
  }

  function RecipientAdmitted(codec: Codec, a: Admission, mechanism: Option<ProviderPin>,
                             recipient: string): Result<bool>
  {
    var pins :- AdmittedPins(a, mechanism);
    Ok(Lists(codec, pins, recipient))
  }
}
