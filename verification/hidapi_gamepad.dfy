/**
  Finding the input gamepad among the connected HID devices and dispatching
  its reports to the decoder of its model.

  The hidapi library is not modelled: its device list is an input sequence and
  opening a device is an oracle `open` from (vendor id, product id) to an
  optional handle.
 */
module HidapiGamepad {
  import opened Bytes
  import opened Wrappers
  import opened UniversalGamepads
  import Ps5Input

  datatype HidApiGamepadError = NoBTDevice | NoSupportedDevice | OpenFailed

  datatype GamepadModel = PS5 | PS4

  /** Transport of a HID device, as hidapi reports it. */
  datatype BusType = Unknown | Usb | Bluetooth | I2c | Spi

  datatype DeviceInfo = DeviceInfo(vendorId: u16, productId: u16, busType: BusType, productString: Option<string>)

  /** An open device handle; its contents are hidapi's business. */
  datatype HidDevice = HidDevice(id: nat)

  datatype OpenedGamepad = OpenedGamepad(device: HidDevice, model: GamepadModel)

  /** Sony's vendor id and the DualSense product id. */
  const DUALSENSE_VID: u16 := 0x054c
  const DUALSENSE_PID: u16 := 0x0ce6

  predicate IsBluetooth(d: DeviceInfo)
  {
    d.busType == Bluetooth
  }

  predicate IsDualSense(d: DeviceInfo)
  {
    d.vendorId == DUALSENSE_VID && d.productId == DUALSENSE_PID
  }

  /** Some Bluetooth device of the list is a DualSense. */
  predicate HasBluetoothDualSense(devices: seq<DeviceInfo>)
  {
    exists d :: d in devices && IsBluetooth(d) && IsDualSense(d)
  }

  /** Reference definition: the Bluetooth devices of a list, in list order. */
  function BluetoothOnly(devices: seq<DeviceInfo>): (r: seq<DeviceInfo>)
    ensures |r| <= |devices|
    ensures forall d :: d in r <==> d in devices && IsBluetooth(d)
  {
    if devices == [] then []
    else if IsBluetooth(devices[0]) then [devices[0]] + BluetoothOnly(devices[1..])
    else BluetoothOnly(devices[1..])
  }

  /** Filtering a list extended by one device extends the filtered list by that device, if it passes. */
  lemma {:induction false} BluetoothOnlySnoc(devices: seq<DeviceInfo>, d: DeviceInfo)
    ensures BluetoothOnly(devices + [d]) == BluetoothOnly(devices) + (if IsBluetooth(d) then [d] else [])
    decreases |devices|
  {
    if devices == [] {
      assert devices + [d] == [d];
      assert [d][1..] == [];
    } else {
      assert (devices + [d])[0] == devices[0];
      assert (devices + [d])[1..] == devices[1..] + [d];
      BluetoothOnlySnoc(devices[1..], d);
    }
  }

  /** The Bluetooth devices among `devices`, or a failure when there are none. */
  method GetBluetoothHidDevices(devices: seq<DeviceInfo>) returns (r: Result<seq<DeviceInfo>, ()>)
    ensures r.Failure? <==> forall d :: d in devices ==> !IsBluetooth(d)
    ensures r.Success? ==> r.value == BluetoothOnly(devices) && r.value != []
  {
    var bluetooth: seq<DeviceInfo> := [];
    var i := 0;
    while i < |devices|
      invariant 0 <= i <= |devices|
      invariant bluetooth == BluetoothOnly(devices[..i])
    {
      BluetoothOnlySnoc(devices[..i], devices[i]);
      assert devices[..i + 1] == devices[..i] + [devices[i]];
      if IsBluetooth(devices[i]) {
        bluetooth := bluetooth + [devices[i]];
      }
      i := i + 1;
    }
    assert devices[..i] == devices;
    if bluetooth == [] {
      return Failure(());
    }
    assert bluetooth[0] in bluetooth;
    return Success(bluetooth);
  }

  /**
    Walks the Bluetooth devices in list order and opens the first DualSense.
    Besides the outcome it returns the devices it passed over (listed on the
    terminal when nothing was found) and how often it called `open`.
   */
  method GetHidGamepad(devices: seq<DeviceInfo>, open: (u16, u16) -> Option<HidDevice>)
    returns (r: Result<OpenedGamepad, HidApiGamepadError>, unsupported: seq<DeviceInfo>, openCalls: nat)
    ensures r == Failure(NoBTDevice) <==> forall d :: d in devices ==> !IsBluetooth(d)
    ensures r == Failure(NoSupportedDevice)
        <==> (exists d :: d in devices && IsBluetooth(d)) && !HasBluetoothDualSense(devices)
    ensures r == Failure(OpenFailed)
        <==> HasBluetoothDualSense(devices) && open(DUALSENSE_VID, DUALSENSE_PID).None?
    ensures r.Success?
        <==> HasBluetoothDualSense(devices) && open(DUALSENSE_VID, DUALSENSE_PID).Some?
    ensures r.Success? ==> r.value == OpenedGamepad(open(DUALSENSE_VID, DUALSENSE_PID).value, PS5)
    ensures openCalls == if HasBluetoothDualSense(devices) then 1 else 0
    // the devices passed over are a prefix of the Bluetooth list holding no
    // DualSense, and the device after them is the one that was opened
    ensures unsupported <= BluetoothOnly(devices)
    ensures forall d :: d in unsupported ==> !IsDualSense(d)
    ensures HasBluetoothDualSense(devices)
        ==> |unsupported| < |BluetoothOnly(devices)| && IsDualSense(BluetoothOnly(devices)[|unsupported|])
    ensures r == Failure(NoSupportedDevice) ==> unsupported == BluetoothOnly(devices)
  {
    unsupported := [];
    openCalls := 0;
    var found := GetBluetoothHidDevices(devices);
    if found.Failure? {
      return Failure(NoBTDevice), unsupported, openCalls;
    }
    var bluetooth := found.value;
    var i := 0;
    while i < |bluetooth|
      invariant 0 <= i <= |bluetooth|
      invariant unsupported == bluetooth[..i]
      invariant forall k :: 0 <= k < i ==> !IsDualSense(bluetooth[k])
    {
      var device := bluetooth[i];
      if IsDualSense(device) {
        assert HasBluetoothDualSense(devices) by {
          assert device in bluetooth;
        }
        openCalls := 1;
        match open(device.vendorId, device.productId)
        case Some(handle) =>
          return Success(OpenedGamepad(handle, PS5)), unsupported, openCalls;
        case None =>
          return Failure(OpenFailed), unsupported, openCalls;
      }
      unsupported := unsupported + [device];
      i := i + 1;
    }
    assert unsupported == bluetooth;
    assert !HasBluetoothDualSense(devices) by {
      forall d | d in devices && IsBluetooth(d)
        ensures !IsDualSense(d)
      {
        assert d in bluetooth;
      }
    }
    return Failure(NoSupportedDevice), unsupported, openCalls;
  }

  /**
    Decodes one report into `output` according to the gamepad model. The PS5
    decoder overwrites every field of `output`; for any other model the report
    is only shown on the terminal and `output` is left as it was.
   */
  function ProcessInput(input: seq<u8>, model: GamepadModel, output: UniversalGamepad): (r: UniversalGamepad)
    requires |input| >= Ps5Input.BYTES_READ
    ensures model == PS4 ==> r == output
    ensures model == PS5 ==> r == Ps5Input.DecodePs5(input)
  {
    match model
    case PS5 =>
      var g := Ps5Input.DecodePs5(input);
      output.(sticks := g.sticks, triggers := g.triggers, bumpers := g.bumpers,
              buttons := g.buttons, dpad := g.dpad, specials := g.specials)
    case PS4 => output
  }

  /** With the PS5 model, what `output` held before the report has no influence. */
  lemma ProcessInputForgetsPriorOutput(input: seq<u8>, before1: UniversalGamepad, before2: UniversalGamepad)
    requires |input| >= Ps5Input.BYTES_READ
    ensures ProcessInput(input, PS5, before1) == ProcessInput(input, PS5, before2)
    ensures Ps5Input.Representable(ProcessInput(input, PS5, before1))
  {
  }
}
