/**
 * The shader program object (shaders/shader_program.h and
 * src/shaders/shader_program.cpp): its constant program handle, the two
 * per-stage shader slots, the uniform table, and the driver commands it
 * issues. Driver queries are inputs; driver commands are appended to `calls`.
 */
module ShaderPrograms {
  import opened Wrappers
  import opened UniformTable

  /** An unsigned 32-bit driver handle. */
  type GLuint = x: int | 0 <= x < 0x1_0000_0000

  /** A signed 32-bit driver integer. */
  type GLint = x: int | -0x8000_0000 <= x < 0x8000_0000

  datatype ShaderType = Vertex | Fragment

  /** A shader object as the program sees it: its stage and its driver handle. */
  datatype Shader = Shader(kind: ShaderType, descriptor: GLuint)

  /** Which `SetUniform` overload was used, hence which value-upload command is sent. */
  datatype UniformKind =
    | Float | Vec2 | Vec3 | Vec4
    | Mat2 | Mat3 | Mat4
    | Int | IVec2 | IVec3 | IVec4

  /** The driver commands a program issues. Uploaded values are not modelled. */
  datatype GLCall =
    | AttachShaderCall(program: GLuint, shader: GLuint)
    | DetachShaderCall(program: GLuint, shader: GLuint)
    | LinkProgramCall(program: GLuint)
    | ValidateProgramCall(program: GLuint)
    | UniformCall(kind: UniformKind, location: GLint)

  /** The number of uniforms the scan writes for a reported count: none when the count is not positive. */
  function ScanLength(count: GLint): (n: nat)
  {
    if count <= 0 then 0 else count
  }

  class ShaderProgram {
    /** The program handle, fixed at construction. */
    const programDs: GLuint
    /** The last fragment shader stored; None while the member is still uninitialised. */
    var fragmentShaderDs: Option<GLuint>
    /** The last non-fragment (vertex) shader stored; None while uninitialised. */
    var vertexShaderDs: Option<GLuint>
    /** Uniform name to location. */
    var uniforms: map<string, int>
    /** Driver commands issued so far, oldest first. */
    var calls: seq<GLCall>

    /** Every stored location is a non-negative GLint. */
    ghost predicate Valid()
      reads this
    {
      forall name :: name in uniforms ==> 0 <= uniforms[name] < 0x8000_0000
    }

    /** `handle` is what the driver's program-creation call returned. */
    constructor (handle: GLuint)
      ensures Valid()
      ensures programDs == handle
      ensures fragmentShaderDs == None && vertexShaderDs == None
      ensures uniforms == map[] && calls == []
    {
      programDs := handle;
      fragmentShaderDs := None;
      vertexShaderDs := None;
      uniforms := map[];
      calls := [];
    }

    /** A fragment shader goes to the fragment slot, every other kind to the vertex slot. */
    method SetShaderDescriptor(shader: Shader)
      requires Valid()
      modifies this`fragmentShaderDs, this`vertexShaderDs
      ensures Valid()
      ensures shader.kind == Fragment ==>
                fragmentShaderDs == Some(shader.descriptor) && vertexShaderDs == old(vertexShaderDs)
      ensures shader.kind != Fragment ==>
                vertexShaderDs == Some(shader.descriptor) && fragmentShaderDs == old(fragmentShaderDs)
    {
      if shader.kind == Fragment {
        fragmentShaderDs := Some(shader.descriptor);
      } else {
        vertexShaderDs := Some(shader.descriptor);
      }
    }

    /** Records the shader in its stage's slot, overwriting any earlier one, then attaches it. */
    method AttachShader(shader: Shader)
      requires Valid()
      modifies this`fragmentShaderDs, this`vertexShaderDs, this`calls
      ensures Valid()
      ensures shader.kind == Fragment ==>
                fragmentShaderDs == Some(shader.descriptor) && vertexShaderDs == old(vertexShaderDs)
      ensures shader.kind != Fragment ==>
                vertexShaderDs == Some(shader.descriptor) && fragmentShaderDs == old(fragmentShaderDs)
      ensures calls == old(calls) + [AttachShaderCall(programDs, shader.descriptor)]
      ensures uniforms == old(uniforms)
    {
      SetShaderDescriptor(shader);
      calls := calls + [AttachShaderCall(programDs, shader.descriptor)];
    }

    /** The overload taking a temporary shader: forwards to AttachShader, with the same effect. */
    method AttachMovedShader(shader: Shader)
      requires Valid()
      modifies this`fragmentShaderDs, this`vertexShaderDs, this`calls
      ensures Valid()
      ensures shader.kind == Fragment ==>
                fragmentShaderDs == Some(shader.descriptor) && vertexShaderDs == old(vertexShaderDs)
      ensures shader.kind != Fragment ==>
                vertexShaderDs == Some(shader.descriptor) && fragmentShaderDs == old(fragmentShaderDs)
      ensures calls == old(calls) + [AttachShaderCall(programDs, shader.descriptor)]
      ensures uniforms == old(uniforms)
    {
      AttachShader(shader);
    }

    /** Only issues the detach command: both slots and the uniform table stay as they were. */
    method DetachShader(shader: Shader)
      requires Valid()
      modifies this`calls
      ensures Valid()
      ensures calls == old(calls) + [DetachShaderCall(programDs, shader.descriptor)]
      ensures fragmentShaderDs == old(fragmentShaderDs) && vertexShaderDs == old(vertexShaderDs)
      ensures uniforms == old(uniforms)
    {
      calls := calls + [DetachShaderCall(programDs, shader.descriptor)];
    }

    /**
     * The scan over the driver's active uniforms. `count` is the reported
     * number of active uniforms and `names[i]` the full name the driver
     * reports for index i; index i is stored as the location of the name
     * read back for it. The table is not cleared first.
     */
    method LoadUniforms(count: GLint, names: seq<string>)
      requires Valid()
      requires count <= |names|
      modifies this`uniforms
      ensures Valid()
      ensures uniforms == LoadedTable(old(uniforms), names, ScanLength(count))
      ensures count <= 0 ==> uniforms == old(uniforms)
    {
      var location: GLint := 0;
      while location < count
        invariant 0 <= location <= ScanLength(count)
        invariant uniforms == LoadedTable(old(uniforms), names, location)
      {
        uniforms := uniforms[UniformName(names[location]) := location];
        location := location + 1;
      }
      assert location == ScanLength(count);
      forall name | name in uniforms
        ensures 0 <= uniforms[name] < 0x8000_0000
      {
        if name !in old(uniforms) || uniforms[name] != old(uniforms)[name] {
          WrittenEntries(old(uniforms), names, location, name);
        }
      }
    }

    /** The location stored for `name`; None where `uniforms.at` throws `std::out_of_range` for an absent name. */
    function GetUniformLocation(name: string): (r: Option<GLint>)
      requires Valid()
      reads this
      ensures r.Some? <==> name in uniforms
      ensures r.Some? ==> r.value == uniforms[name] && 0 <= r.value
    {
      if name in uniforms then Some(uniforms[name]) else None
    }

    /**
     * Links and validates, then rescans the active uniforms, whatever the
     * link's outcome. `count` and `names` are the driver's report after the
     * link attempt.
     */
    method Link(count: GLint, names: seq<string>)
      requires Valid()
      requires count <= |names|
      modifies this`uniforms, this`calls
      ensures Valid()
      ensures calls == old(calls) + [LinkProgramCall(programDs), ValidateProgramCall(programDs)]
      ensures uniforms == LoadedTable(old(uniforms), names, ScanLength(count))
      ensures fragmentShaderDs == old(fragmentShaderDs) && vertexShaderDs == old(vertexShaderDs)
    {
      calls := calls + [LinkProgramCall(programDs), ValidateProgramCall(programDs)];
      LoadUniforms(count, names);
    }

    /**
     * Every SetUniform overload: resolves `name` first and fails (None) when
     * it is absent, before any command is sent; otherwise sends one upload
     * command to the stored location and returns this same program.
     */
    method SetUniform(name: string, kind: UniformKind) returns (r: Option<ShaderProgram>)
      requires Valid()
      modifies this`calls
      ensures Valid()
      ensures r.Some? <==> name in uniforms
      ensures r.Some? ==> r.value == this && calls == old(calls) + [UniformCall(kind, uniforms[name])]
      ensures r.None? ==> calls == old(calls)
    {
      var location := GetUniformLocation(name);
      if location.None? {
        return None;
      }
      calls := calls + [UniformCall(kind, location.value)];
      return Some(this);
    }
  }

  /**
   * Attaching two shaders of the same stage in a row keeps only the second
   * in that stage's slot; nothing rejects the first.
   */
  method SecondAttachOverwrites(p: ShaderProgram, first: Shader, second: Shader)
    requires first.kind == second.kind
    requires p.Valid()
    modifies p`fragmentShaderDs, p`vertexShaderDs, p`calls
    ensures p.Valid()
    ensures first.kind == Fragment ==>
              p.fragmentShaderDs == Some(second.descriptor) && p.vertexShaderDs == old(p.vertexShaderDs)
    ensures first.kind != Fragment ==>
              p.vertexShaderDs == Some(second.descriptor) && p.fragmentShaderDs == old(p.fragmentShaderDs)
    ensures p.uniforms == old(p.uniforms)
    ensures p.calls == old(p.calls) + [AttachShaderCall(p.programDs, first.descriptor),
                                       AttachShaderCall(p.programDs, second.descriptor)]
  {
    p.AttachShader(first);
    p.AttachShader(second);
  }

  /**
   * Builds a program from a vertex and a fragment shader: a new program on
   * `handle`, both shaders attached, then linked. Compiling the shaders is
   * driver work and logging and is not modelled.
   */
  method MakeProgram(handle: GLuint, vertexShader: Shader, fragmentShader: Shader,
                     count: GLint, names: seq<string>) returns (p: ShaderProgram)
    requires vertexShader.kind == Vertex && fragmentShader.kind == Fragment
    requires count <= |names|
    ensures fresh(p) && p.Valid()
    ensures p.programDs == handle
    ensures p.vertexShaderDs == Some(vertexShader.descriptor)
    ensures p.fragmentShaderDs == Some(fragmentShader.descriptor)
    ensures p.calls == [AttachShaderCall(handle, vertexShader.descriptor),
                        AttachShaderCall(handle, fragmentShader.descriptor),
                        LinkProgramCall(handle), ValidateProgramCall(handle)]
    ensures p.uniforms == LoadedTable(map[], names, ScanLength(count))
  {
    p := new ShaderProgram(handle);
    p.AttachShader(vertexShader);
    p.AttachShader(fragmentShader);
    p.Link(count, names);
  }
}
