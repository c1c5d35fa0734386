# audio-lines: frequency packing and overlay state

audio-lines plays an audio track, reads the byte magnitudes of its frequency
bins each frame from a Web Audio `AnalyserNode`, and passes them to a
full-viewport shader plane as the uniform `u_FrequencyData`, an array of
`THREE.Vector4`. Almost all of `src/index.tsx` is React, Web Audio and three.js
glue. This project models the two parts that hold logic of their own:

- `getFrequencyData`, which packs the analyser's `Uint8Array` into vectors.
  Bytes `4k .. 4k+3` become vector `k` as `(x, y, z, w)`
  (module `FrequencyData`, file `frequency_data.dfy`). The method
  `GetFrequencyData` keeps the source's loop, which steps `i` by 4 and pushes
  one vector per step. It is proved equal to `Pack`, a chunk-by-chunk
  reference definition. The lemmas state what `Pack` guarantees.
- The selection state of the `Overlay` component, with its `ready` flag and
  optional `arrayBuffer` (module `Overlay`, file `overlay.dfy`). It is a class
  with one method per event handler.

A JavaScript read past the end of a `Uint8Array` yields `undefined`. The model
represents it as an absent component (`None` of `Wrappers.Option`). Bytes are
the subset type `Byte` (0 to 255), so every present component is within
`[0, 255]` by its type. `GetFrequencyData` has no `modifies` clause, so it
cannot change its input array.

The loop in `getFrequencyData` runs while `i < data.length`. A buffer whose
length is not a multiple of 4 therefore yields `ceil(n/4)` vectors, and the
last one is partly absent: the trailing partial group is not dropped.
Dropping it would give `floor(n/4)` vectors. Under the configuration in use
(`fftSize = 256`, so 128 bins) the two counts agree: 32 full vectors.

## Model

| member | source | states |
|---|---|---|
| `FrequencyData.Pack` | src/index.tsx:159-163 | a buffer of `n` bytes packs into exactly `ceil(n/4)` vectors, and the empty buffer into none |
| `FrequencyData.GetFrequencyData` | src/index.tsx:158-164 | the loop over `i = 0, 4, 8, ... < n` returns exactly the packing of the buffer, and the buffer is not written |
| `FrequencyData.PackAt` | src/index.tsx:160-162 | vector `k` is built from bytes `4k`, `4k+1`, `4k+2`, `4k+3`, with vectors in ascending `k` |
| `FrequencyData.ComponentPresence` | src/index.tsx:161 | component `j` of vector `k` is present if and only if byte `4k+j` is inside the buffer, and then it equals that byte |
| `FrequencyData.FullGroup` | src/index.tsx:160-162 | for every `k` with `4k+3 < n`, vector `k` is `(data[4k], data[4k+1], data[4k+2], data[4k+3])` |
| `FrequencyData.PartialGroupKept` | src/index.tsx:160-161 | when `n % 4 != 0` there are `n/4 + 1` vectors; in the last one, components inside the buffer hold their bytes and those past the end are absent |
| `FrequencyData.FlattenPack` | src/index.tsx:160-161 | flattening the vectors gives every byte once, in order, followed by `(4 - n % 4) % 4` absent components: no byte is lost or duplicated |
| `FrequencyData.RoundTrip` | src/index.tsx:160-161 | when `n` is a multiple of 4, flattening the vectors reproduces the buffer exactly |
| `FrequencyData.ConfiguredLength` | src/index.tsx:121 | a buffer of `frequencyBinCount = fftSize/2 = 128` bytes packs into `fftSize/2/4 = 32` vectors, the length of the pre-sized uniform array, and every component is present |
| `FrequencyData.ConstantBuffer` | src/index.tsx:136-139 | a 128-byte buffer of one repeated byte packs into 32 vectors of that byte, for example 32 zero vectors for silence |
| `Overlay.OverlayState.constructor` | src/index.tsx:23-24 | the overlay starts not ready and with no buffer |
| `Overlay.OverlayState.HandlePlayClick` | src/index.tsx:26-28 | Play sets `ready` and leaves `arrayBuffer` unchanged |
| `Overlay.OverlayState.AddFile` | src/index.tsx:30-35 | with no file chosen nothing changes; with a file its bytes are stored and `ready` is set; `ready` never goes back to false, and a stored buffer always comes with `ready` |

## Left out

- `Start` and `Stop` (src/index.tsx:12-20): they mount and unmount the React root in the DOM.
- JSX rendering in `Overlay`, `App` and `ShaderPlane` (src/index.tsx:37-65, 146-155): declarative UI and scene composition. This includes the choice between the file picker and the scene, which depends on `ready`.
- `createAudio` (src/index.tsx:68-99): the network fetch of the fallback track, audio decoding, and wiring the source, analyser and gain nodes. This is I/O and foreign Web Audio calls. `frequencyBinCount` enters the model only as the function `FrequencyBinCount`, half the FFT size, as section 1.8 of the W3C Web Audio API defines it.
- The per-frame average returned by `update` (src/index.tsx:94-97): a floating-point reduction over a buffer that the foreign `getByteFrequencyData` fills.
- Viewport resize handling (src/index.tsx:127-134) and the `useFrame` and `useEffect` hooks (src/index.tsx:136-144): three.js float scaling, render-loop callbacks, and connecting and disconnecting the audio graph. The per-frame packing they trigger appears only through `ConfiguredLength` and `ConstantBuffer`.
- The GLSL shaders (src/index.tsx:8-9) are not part of this model.
- The three.js `Vector4` constructor is not part of this model. The model keeps an out-of-range read as an absent component and does not apply whatever the library does with an `undefined` argument. Components are integers, not JavaScript numbers.
- `AddFile` is one atomic step. In the source, reading the file is asynchronous (`await ... arrayBuffer()`), and a Play click can fall between the read and the two state updates. That interleaving is not modelled. The file's contents are a parameter of `AddFile`. A file read that the browser rejects runs neither state update, so it leaves the state as `AddFile(None)` does.
