/** The arguments of `network_io_counters` and `disk_io_counters` outside Linux: the JavaScript
    wrapper, the native argument check, and the flag and callback that reach the worker. */
module EntryPoints {

  /** A JavaScript value, as far as `typeof`, the native type tests and ToBoolean see it. */
  datatype Js = Undefined | Null | Bool(b: bool) | Number(n: real) | NaN | Text(text: string) | Function(id: nat)
              | Object

  /** ToBoolean of section 9.2 of ECMA-262 5.1. */
  predicate ToBoolean(v: Js) {
    match v
    case Undefined => false
    case Null => false
    case Bool(b) => b
    case Number(n) => n != 0.0
    case NaN => false
    case Text(text) => text != ""
    case Function(_) => true
    case Object => true
  }

  /** What the native entry point does with its arguments. */
  datatype Entry = Exception | Queued(callback: Js, perDevice: bool)

  /** `args[i]`: undefined past the end. */
  function Argument(args: seq<Js>, i: nat): Js { if i < |args| then args[i] else Undefined }

  /** `NetworkIOCounters` and `DiskIOCounters`, for any number of arguments: only one or two are
      looked at before they are used. */
  method NativeEntry(args: seq<Js>) returns (entry: Entry)
    ensures entry.Exception? <==>
              || (|args| == 1 && !args[0].Function?)
              || (|args| == 2 && !args[0].Bool? && !args[1].Function?)
    ensures entry.Queued? ==> entry.callback == Argument(args, if |args| == 1 then 0 else 1)
    ensures entry.Queued? ==> (entry.perDevice <==> |args| == 2 && ToBoolean(args[1]))
  {
    if |args| == 2 && !args[0].Bool? && !args[1].Function? {
      return Exception;
    }
    if |args| == 1 && !args[0].Function? {
      return Exception;
    }
    var callback := if |args| == 1 then args[0] else Argument(args, 1);
    var perDevice := if |args| == 2 then ToBoolean(args[1]) else false;
    return Queued(callback, perDevice);
  }

  /** `PSUtil.prototype.network_io_counters` and `disk_io_counters`: with a function in first
      place, the second argument is dropped.
      The caller meant per-device counters exactly when the first argument is a true flag; the
      worker gets that flag exactly when it is true or was left out, for it is read from the
      callback. */
  method Wrapper(first: Js, second: Js) returns (entry: Entry)
    ensures first.Function? ==> entry == Queued(first, false)
    ensures !first.Function? && second.Function? ==> entry == Queued(second, true)
    ensures first.Function? || second.Function? ==>
              (entry.perDevice == (!first.Function? && ToBoolean(first)) <==> first.Function? || ToBoolean(first))
    ensures !first.Function? && !second.Function? ==>
              if first.Bool? then entry == Queued(second, ToBoolean(second)) else entry == Exception
  {
    if first.Function? {
      entry := NativeEntry([first]);
    } else {
      entry := NativeEntry([first, second]);
    }
  }

  /** The false values. */
  lemma {:induction false} FalseValues(v: Js)
    ensures !ToBoolean(v) <==> v in {Undefined, Null, Bool(false), Number(0.0), NaN, Text("")}
  {
  }
}
