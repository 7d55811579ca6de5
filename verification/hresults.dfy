/** The result codes of COM calls that occur in the model. */
module HResults {
  import opened Words

  const S_OK: DWord := 0
  const S_FALSE: DWord := 1
  const E_NOINTERFACE: DWord := 0x8000_4002
  const E_FAIL: DWord := 0x8000_4005
  const E_OUTOFMEMORY: DWord := 0x8007_000E
  const E_INVALIDARG: DWord := 0x8007_0057
}
