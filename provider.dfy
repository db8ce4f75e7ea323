/** The performance-data provider (a WMI high-performance enumerator) as a scripted oracle:
    its answers are inputs, and these functions give what each call reports back. */
module Provider {
  import opened Types

  /** What `GetPropertyHandle` yields: the property's CIM type tag and an access handle. */
  datatype PropertyHandle = PropertyHandle(tag: int, handle: int)

  /** One enumerated object (an `IWbemObjectAccess`): property names it resolves, and the
      raw bytes `ReadPropertyValue` would copy out for each access handle. */
  datatype Obj = Obj(props: map<string, PropertyHandle>, values: map<int, seq<byte>>)

  /** The provider's answer to one `GetObjects` call. */
  datatype Enumeration =
    | Objects(objs: seq<Obj>)     // the objects it holds; they are written if they fit
    | TooSmall(required: nat)     // WBEM_E_BUFFER_TOO_SMALL reporting a required count
    | Failed(reported: nat)       // any other failure, with whatever count it left behind

  /** Everything the provider answers during one `refresh_data`: whether `Refresh` succeeds,
      the first `GetObjects` answer and the answer to the single retry (used only on growth). */
  datatype ProviderStep = ProviderStep(refreshOk: bool, first: Enumeration, retry: Enumeration)

  datatype Hr = Success | BufferTooSmall | OtherFailure

  /** `GetObjects`' HRESULT, the count it stores in `dw_num_returned`, and the objects it writes. */
  datatype Reply = Reply(hr: Hr, returned: nat, written: seq<Obj>)

  /** `GetObjects` into a buffer of `capacity` slots. */
  function GetObjects(capacity: nat, answer: Enumeration): (r: Reply)
    ensures |r.written| <= capacity
    ensures r.hr == Success <==> answer.Objects? && |answer.objs| <= capacity
    ensures r.hr == Success ==> r.written == answer.objs && r.returned == |answer.objs|
    ensures r.hr != Success ==> r.written == []
    ensures r.hr == BufferTooSmall <==> answer.TooSmall? || (answer.Objects? && |answer.objs| > capacity)
  {
    match answer
    case Objects(objs) =>
      if |objs| <= capacity then Reply(Success, |objs|, objs) else Reply(BufferTooSmall, |objs|, [])
    case TooSmall(required) => Reply(BufferTooSmall, required, [])
    case Failed(reported) => Reply(OtherFailure, reported, [])
  }

  /** `GetPropertyHandle` on one object: fails when the object has no such property. */
  function GetPropertyHandle(obj: Obj, name: string): (r: Option<PropertyHandle>)
    ensures r.Some? <==> name in obj.props
    ensures r.Some? ==> r.value == obj.props[name]
  {
    if name in obj.props then Some(obj.props[name]) else None
  }

  /** `ReadPropertyValue` with a buffer of `capacity` bytes: fails when the handle is unknown
      to the object or the value does not fit; otherwise copies the value out whole. */
  function ReadPropertyValue(obj: Obj, handle: int, capacity: nat): (r: Option<seq<byte>>)
    ensures r.Some? <==> handle in obj.values && |obj.values[handle]| <= capacity
    ensures r.Some? ==> r.value == obj.values[handle] && |r.value| <= capacity
  {
    if handle in obj.values && |obj.values[handle]| <= capacity then Some(obj.values[handle]) else None
  }
}
