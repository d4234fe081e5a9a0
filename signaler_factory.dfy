/**
 * The cache signaller factory: from the signaller options to the variant
 * that delivers remote cache resets (through a RabbitMQ broker, or none),
 * or to the error raised for an unknown type.
 */
module SignalerFactory {
  import opened Wrappers

  /** The signaller section of the settings; the broker's own fields are opaque here. */
  type Options = map<string, string>

  /** The signaller variants; `C` is the type of the callback that receives the keys to reset. */
  datatype Signaler<C> = RabbitSignaller(options: Options, callback: C) | NoSignaler

  /** The text before the type name in the error for an unknown type. */
  const UnknownTypePrefix: string := "unknown type for cache signaller('$"

  /**
   * `create_signaler(options, callback)`. A missing or empty options
   * dictionary, or one without "type", selects "none".
   */
  function CreateSignaler<C>(options: Option<Options>, callback: C): (r: Result<Signaler<C>, string>)
    ensures options.None? || "type" !in options.value ==> r == Success(NoSignaler)
    ensures options.Some? && "type" in options.value && options.value["type"] == "rabbit" ==>
      r == Success(RabbitSignaller(options.value, callback))
    ensures options.Some? && "type" in options.value && options.value["type"] == "none" ==>
      r == Success(NoSignaler)
    ensures options.Some? && "type" in options.value && options.value["type"] !in {"rabbit", "none"} ==>
      r == Failure(UnknownTypePrefix + options.value["type"] + "')")
  {
    var signalerType := if options.Some? && options.value != map[] && "type" in options.value then options.value["type"] else "none";
    if signalerType == "rabbit" then
      Success(RabbitSignaller(options.value, callback))
    else if signalerType == "none" then
      Success(NoSignaler)
    else
      Failure(UnknownTypePrefix + signalerType + "')")
  }

  /**
   * The factory fails exactly on an unknown type; the broker-backed variant
   * receives the options and the callback unchanged.
   */
  lemma CreateSignalerOutcomes<C>(options: Option<Options>, callback: C)
    ensures var r := CreateSignaler(options, callback);
      && (r.Failure? <==> options.Some? && "type" in options.value && options.value["type"] !in {"rabbit", "none"})
      && (r.Success? && r.value.RabbitSignaller? ==> r.value.callback == callback && options == Some(r.value.options))
  {
  }

  /** Which variant is chosen, or whether it fails, depends on the options alone. */
  lemma ChoiceIgnoresCallback<C>(options: Option<Options>, c1: C, c2: C)
    ensures CreateSignaler(options, c1).Success? == CreateSignaler(options, c2).Success?
    ensures CreateSignaler(options, c1).Success? ==>
      CreateSignaler(options, c1).value.NoSignaler? == CreateSignaler(options, c2).value.NoSignaler?
  {
  }
}
