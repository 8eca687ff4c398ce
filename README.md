# opengl_wrapper: shader program state and buffer sizes

This project models the parts of the opengl_wrapper C++ library that hold logic of their own,
apart from the OpenGL driver calls:

- the `ShaderProgram` object. It has a constant program handle, one recorded shader handle per
  stage (fragment and vertex), and a uniform table from uniform name to location. It also issues
  a stream of driver commands.
- the uniform scan `LoadUniforms`. It walks the driver's active-uniform indices `0 .. count-1`
  and writes `uniforms[name(i)] = i`. The index itself is stored as the location.
  Names are read through a 32-byte buffer, so they are cut to 31 characters.
- both `BytesIn` overloads, which compute `sizeof(T)` times the element count as a `size_t`.

Driver queries are inputs to the model. The active-uniform count is a `GLint` and the names are a
`seq<string>` with one full name per index. Driver commands (attach, detach, link, validate,
uniform upload) are appended to the program's `calls` field, in order. That is how the model
states which commands the program sends, and that a failed lookup sends none.

Modules:

- `Wrappers`: `Option`.
- `Bytes`: `bytes.h`. `sizeof(T)` is a positive parameter. `size_t` multiplication wraps
  modulo 2^64.
- `UniformTable`: the pure part of the uniform scan. It has the truncated name
  (`UniformName`), a reference definition of the winning index (`LastIndex`), the table after the
  scan (`LoadedTable`), and lemmas relating them.
- `ShaderPrograms`: the `ShaderProgram` class and `MakeProgram`. Its methods are proved against
  `LoadedTable`.

Behaviour of the code worth knowing:

- `LoadUniforms` never clears `uniforms`. Entries that a relink no longer reports keep their old
  locations (`UnreportedUnchanged`). `RelinkKeepsStaleEntry` shows two names sharing location 0.
- `Link` rescans the active uniforms whatever the link status; it never queries that status.
- Attaching a second shader of one stage overwrites that stage's slot; nothing rejects it
  (`SecondAttachOverwrites`).

## Model

| member | source | states |
|---|---|---|
| `Bytes.BytesInVector` | bytes.h:8-11 | the byte size of a vector is element size times element count, reduced modulo 2^64 as `size_t` arithmetic does |
| `Bytes.BytesInArray` | bytes.h:13-16 | the byte size of a fixed array is element size times its static length, reduced modulo 2^64 |
| `Bytes.VectorBytes` | bytes.h:8-11 | the byte size of a vector equals element size times element count whenever that product fits in a `size_t` |
| `Bytes.ArrayBytes` | bytes.h:13-16 | the byte size of a fixed array equals element size times its static length whenever that fits in a `size_t` |
| `Bytes.EmptyVectorHasNoBytes` | bytes.h:8-11 | an empty vector has byte size 0 |
| `Bytes.BytesAreWholeElements` | bytes.h:8-11 | the byte size is a multiple of the element size, and dividing it by the element size gives back the element count |
| `Bytes.ArrayBytesIgnoreContents` | bytes.h:13-16 | two arrays of the same length have the same byte size, whatever they hold |
| `Bytes.VectorAndArrayAgree` | bytes.h:8-16 | a vector and an array with the same element count have the same byte size |
| `UniformTable.UniformName` | src/shaders/shader_program.cpp:100-110 | the name read back has at most 31 characters and is a prefix of the driver's name; it is the whole name when that is shorter than 32, and exactly 31 characters otherwise |
| `UniformTable.LastIndex` | src/shaders/shader_program.cpp:89-94 | reference definition of the winning index: if one exists, it is below `n`, its name equals the key, and no later index has that name; if none exists, no index below `n` has that name |
| `UniformTable.LoadedTable` | src/shaders/shader_program.cpp:89-94 | the table after the scan has written the first `n` reported uniforms in index order: it keeps every key it had, and every key it gains is a truncated name of at most 31 characters |
| `UniformTable.LoadedTableAt` | src/shaders/shader_program.cpp:89-94 | after the scan, a key is present iff it was present before or some index reported it; its value is the last reporting index, or the old value when no index reported it |
| `UniformTable.LastWriteWins` | src/shaders/shader_program.cpp:89-94 | every reported name is in the table, under the largest index that reported it; that index is in `[i, n)` |
| `UniformTable.WrittenEntries` | src/shaders/shader_program.cpp:90-92 | each entry the scan adds or changes has a location in `[0, n)` that reported that name, and the name has at most 31 characters |
| `UniformTable.UnreportedUnchanged` | src/shaders/shader_program.cpp:89-94 | a name no index reports keeps its old entry, or stays absent; the table is not cleared |
| `UniformTable.DistinctNamesKeepOwnIndex` | src/shaders/shader_program.cpp:91-92 | when the truncated names are pairwise distinct, each uniform's location is its own index |
| `UniformTable.LoadIdempotent` | src/shaders/shader_program.cpp:89-94 | scanning the same report twice gives the same table as scanning it once |
| `UniformTable.RelinkKeepsStaleEntry` | src/shaders/shader_program.cpp:89-94 | a relink that no longer reports "a" leaves "a" at its old location 0, which now also belongs to "b" |
| `ShaderPrograms.ScanLength` | src/shaders/shader_program.cpp:91 | the number of indices the loop visits: the reported count, or none when it is not positive |
| `ShaderPrograms.ShaderProgram.constructor` | src/shaders/shader_program.cpp:8 | the program handle is the one the driver created; the table and the command log are empty; both shader slots are still unset |
| `ShaderPrograms.ShaderProgram.SetShaderDescriptor` | shaders/shader_program.h:67-74 | a fragment shader sets the fragment slot and leaves the vertex slot; any other shader sets the vertex slot and leaves the fragment slot; nothing else may change |
| `ShaderPrograms.ShaderProgram.AttachShader` | shaders/shader_program.h:23-27 | the shader's slot is set as by `SetShaderDescriptor`, then exactly one attach command for this program and shader is sent; the uniform table is unchanged |
| `ShaderPrograms.ShaderProgram.AttachMovedShader` | shaders/shader_program.h:29-32 | the overload for a temporary shader has the same effect on the slots, the table and the commands as `AttachShader` |
| `ShaderPrograms.ShaderProgram.DetachShader` | shaders/shader_program.h:35-38 | exactly one detach command is sent; both slots and the uniform table are unchanged |
| `ShaderPrograms.ShaderProgram.LoadUniforms` | src/shaders/shader_program.cpp:89-94 | the new table is `LoadedTable` of the old table over the first `max(count, 0)` reported names; a non-positive count leaves the table unchanged; every location stays a non-negative `GLint` |
| `ShaderPrograms.ShaderProgram.GetUniformLocation` | src/shaders/shader_program.cpp:96-98 | yields the stored location exactly when the name is in the table, and fails when it is absent; it reads the program and changes nothing |
| `ShaderPrograms.ShaderProgram.Link` | src/shaders/shader_program.cpp:119-123 | sends link then validate for this program, then rebuilds the table as `LoadUniforms` does, with no dependence on whether linking succeeded; the shader slots are unchanged |
| `ShaderPrograms.ShaderProgram.SetUniform` | src/shaders/shader_program.cpp:22-87 | an absent name fails with no command sent; a present name sends one upload to its stored location and returns this same program, so calls can be chained |
| `ShaderPrograms.SecondAttachOverwrites` | shaders/shader_program.h:23-27 | attaching two shaders of one stage in a row leaves the second in that stage's slot, and both attach commands are sent; nothing is rejected |
| `ShaderPrograms.MakeProgram` | src/shaders/shader_program.cpp:170-183 | a fresh program on the given handle, with the vertex and fragment slots set; its commands are the two attaches, then link and validate; its table is the scan of the report over an empty table |

## Left out

- All OpenGL driver calls are outside the model. Queries (active-uniform count, uniform names) become parameters; no modelled member queries the link status. Commands are recorded as `GLCall` values, not performed. The program-creation command `glCreateProgram` (src/shaders/shader_program.cpp:8) is not recorded in `calls`; the handle it returns is the constructor's `handle` parameter.
- Uniform payloads (floats, `glm` vectors and matrices) and the matrix `transpose` flag are floating-point data the code passes through unchanged. `SetUniform` records only which overload was used (`UniformKind`) and the location.
- `glGetActiveUniform` reads each name into a `char[32]`. The model assumes the driver fills it correctly for every index below the reported count. The requirement `count <= |names|` says the driver names every such index. Embedded NUL characters in names are not modelled. Truncation keeps 31 Dafny characters where the buffer keeps 31 bytes; the two agree because GLSL identifiers and the `[i]` and `.` in reported names are ASCII, so truncation of non-ASCII names is not modelled.
- The C++ constructor never initialises `fragment_shader_ds` or `vertex_shader_ds`. The model shows this as `None` rather than as an arbitrary value.
- `IsValid`, `GetErrorMessage` and `PrintInfoLog` only query the driver and write logs. They are I/O and are not modelled.
- The free `LinkProgram` (src/shaders/shader_program.cpp:147-168; its declaration is commented out at shaders/shader_program.h:95) sends link and validate as `Link` does. It takes the program by `const` reference, so it does not rescan the uniforms, and a program relinked through it keeps its old table. It then logs the link status. It is not modelled.
- The destructor and the move constructor manage native handle lifetimes, so they are not modelled. The same goes for the trivial getters `Descriptor`, `VSDescriptor` and `FSDescriptor`, because the model's fields are public.
- `Shader` objects (src/shaders/shader.h) appear only as a stage kind plus a handle. `LoadShader` is file and stream I/O. `CompileShader` is a driver call plus logging. `SetSource` and the constructors are driver calls. `MakeProgram` does not record its two `CompileShader` calls.
- `VertexBuffer::InsertData` (src/buffers/vbo.h) is one driver upload whose only logic is `BytesIn`.
- apigl.h only includes other headers.
- Bytes.BytesInVector, Bytes.BytesInArray: the model assumes a 64-bit `size_t`; on a 32-bit target the product wraps modulo 2^32 instead.
- Bytes.VectorBytes: the exact product (no wrap-around) is proved only when it is below 2^64. A vector or array whose byte size reaches 2^64 cannot exist in memory, so the wrapped case never occurs in practice.
- Bytes.BytesAreWholeElements: proved only when the product fits in a `size_t`, for the same reason.
